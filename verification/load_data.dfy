/** Reading the inference input: every line that is not blank becomes its
    characters separated by single spaces, ready for the model. */
module LoadData {
  import opened PyBuiltins

  /** `list(line)`: one single-character string per character. */
  function Singletons(s: string): (parts: seq<string>)
    ensures |parts| == |s|
  {
    seq(|s|, i requires 0 <= i < |s| => [s[i]])
  }

  /** `u' '.join(list(line))`. */
  function Spaced(s: string): string {
    Join(" ", Singletons(s))
  }

  /** The entry for one line of the input file, if it gets one. */
  function Entry(line: string): seq<string> {
    var t := Strip(line);
    if t == [] then [] else [Spaced(t)]
  }

  /** The entries for the lines of the input file, in order. */
  function Loaded(lines: seq<string>): seq<string> {
    if lines == [] then [] else Loaded(lines[..|lines| - 1]) + Entry(lines[|lines| - 1])
  }

  /** `load_data` over the lines of the input file (reading the file and
      decoding UTF-8 are not part of this model). */
  method LoadInferenceData(lines: seq<string>) returns (inferenceData: seq<string>)
    ensures inferenceData == Loaded(lines)
  {
    inferenceData := [];
    var i := 0;
    while i < |lines|
      invariant 0 <= i <= |lines|
      invariant inferenceData == Loaded(lines[..i])
    {
      assert lines[..i + 1][..i] == lines[..i];
      var line := Strip(lines[i]);
      if line != [] {
        inferenceData := inferenceData + [Join(" ", Singletons(line))];
      }
      i := i + 1;
    }
    assert lines[..i] == lines;
  }

  /** A spaced line has its characters at the even positions and a space
      at every odd position, so a line of `n` characters becomes `2n - 1`. */
  lemma {:induction false} SpacedLayout(s: string)
    requires s != []
    ensures |Spaced(s)| == 2 * |s| - 1
    ensures forall i :: 0 <= i < |s| ==> Spaced(s)[2 * i] == s[i]
    ensures forall i :: 0 <= i < |s| - 1 ==> Spaced(s)[2 * i + 1] == ' '
  {
    var n := |s|;
    if n == 1 {
      assert s == [s[0]];
      assert Singletons(s) == [[s[0]]];
    } else {
      var front := s[..n - 1];
      assert Singletons(s)[..n - 1] == Singletons(front);
      SpacedLayout(front);
      var t := Spaced(s);
      assert t == Spaced(front) + " " + [s[n - 1]];
      forall i | 0 <= i < n
        ensures t[2 * i] == s[i]
      {
        if i < n - 1 {
          assert t[2 * i] == Spaced(front)[2 * i] == front[i];
        }
      }
    }
  }

  /** The characters at the even positions of a string. */
  function EvenPositions(t: string): (s: string)
    ensures |s| == (|t| + 1) / 2
  {
    seq((|t| + 1) / 2, i requires 0 <= i < (|t| + 1) / 2 => t[2 * i])
  }

  /** Spacing loses nothing: the characters at the even positions of a
      spaced line are the line itself. */
  lemma SpacedRoundTrip(s: string)
    ensures EvenPositions(Spaced(s)) == s
  {
    if s == [] {
      assert Singletons(s) == [];
    } else {
      SpacedLayout(s);
      var e := EvenPositions(Spaced(s));
      forall i | 0 <= i < |s|
        ensures e[i] == s[i]
      {
      }
    }
  }

  /** Loading two parts of a file one after the other gives the entries of
      the first part followed by those of the second: lines keep their order
      and each line's entry depends on that line alone. */
  lemma {:induction false} LoadedAppend(first: seq<string>, rest: seq<string>)
    ensures Loaded(first + rest) == Loaded(first) + Loaded(rest)
    decreases |rest|
  {
    if rest == [] {
      assert first + rest == first;
    } else {
      var all := first + rest;
      var rest' := rest[..|rest| - 1];
      assert all[..|all| - 1] == first + rest';
      assert all[|all| - 1] == rest[|rest| - 1];
      LoadedAppend(first, rest');
      LoadedLast(all);
      LoadedLast(rest);
    }
  }

  lemma LoadedLast(lines: seq<string>)
    requires lines != []
    ensures Loaded(lines) == Loaded(lines[..|lines| - 1]) + Entry(lines[|lines| - 1])
  {
  }

  /** Blank lines get no entry and every other line gets exactly one: the
      spaced form of its stripped text, which has odd length and neither
      starts nor ends with whitespace. */
  lemma EntryShape(line: string)
    ensures Strip(line) == [] <==> Entry(line) == []
    ensures Strip(line) != [] ==> |Entry(line)| == 1 && |Entry(line)[0]| == 2 * |Strip(line)| - 1
    ensures Strip(line) != [] ==> !IsWhitespace(Entry(line)[0][0]) && !IsWhitespace(Last(Entry(line)[0]))
  {
    var t := Strip(line);
    if t != [] {
      SpacedLayout(t);
      var e := Spaced(t);
      assert e[2 * (|t| - 1)] == t[|t| - 1];
    }
  }

  /** The number of lines that are not blank once stripped. */
  function NonBlank(lines: seq<string>): nat {
    if lines == [] then 0 else NonBlank(lines[..|lines| - 1]) + (if Strip(lines[|lines| - 1]) == [] then 0 else 1)
  }

  /** One entry per non-blank line. */
  lemma {:induction false} LoadedCount(lines: seq<string>)
    ensures |Loaded(lines)| == NonBlank(lines)
  {
    if lines != [] {
      LoadedCount(lines[..|lines| - 1]);
    }
  }
}
