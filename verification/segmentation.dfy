/** The tag-to-text reconstructor of the inference runner: a line of
    characters and its BMES tags become one line of space-separated words. */
module Segmentation {
  import opened PyBuiltins

  const TAG_S: int := 0
  const TAG_B: int := 1
  const TAG_M: int := 2
  const TAG_E: int := 3

  /** S (a one-character word) and B (the first character of a longer word)
      open a word; the reconstructor writes a space before these. */
  predicate OpensWord(tag: int) {
    tag == TAG_S || tag == TAG_B
  }

  function Min(a: int, b: int): int { if a <= b then a else b }

  /** How many (character, tag) pairs the reconstructor visits: both rows are
      cut with `[:length]`, which stops at the row's end, and `zip` stops at
      the shorter of the two. */
  function Paired(text: seq<char>, tags: seq<int>, length: nat): (k: nat)
    ensures k <= |text| && k <= |tags| && k <= length
    ensures k == length || k == |text| || k == |tags|
  {
    Min(Min(length, |text|), |tags|)
  }

  /** What one (character, tag) pair appends to the running line. */
  function Piece(c: char, tag: int): string {
    if OpensWord(tag) then [' ', c] else [c]
  }

  /** Number of word-opening tags among the first `k`. */
  function Opened(tags: seq<int>, k: nat): (n: nat)
    requires k <= |tags|
    ensures n <= k
  {
    if k == 0 then 0 else Opened(tags, k - 1) + (if OpensWord(tags[k - 1]) then 1 else 0)
  }

  /** The running line after the first `k` pairs, before it is stripped. */
  function Raw(text: seq<char>, tags: seq<int>, k: nat): (r: string)
    requires k <= |text| && k <= |tags|
    ensures |r| == k + Opened(tags, k)
  {
    if k == 0 then [] else Raw(text, tags, k - 1) + Piece(text[k - 1], tags[k - 1])
  }

  /** The segmented line written for one row of inference output. */
  function Reconstruct(text: seq<char>, tags: seq<int>, length: nat): (r: string)
    ensures r == [] || (!IsWhitespace(r[0]) && !IsWhitespace(r[|r| - 1]))
    ensures length == 0 ==> r == []
  {
    Strip(Raw(text, tags, Paired(text, tags, length)))
  }

  /** The loop of the inference runner that rebuilds one line: cut both rows
      to `length`, append each character (after a space when its tag opens a
      word) and strip the result. */
  method ReconstructLine(textLine: seq<char>, tagsLine: seq<int>, length: nat) returns (newline: string)
    ensures newline == Reconstruct(textLine, tagsLine, length)
  {
    var text := textLine[..Min(length, |textLine|)];
    var tags := tagsLine[..Min(length, |tagsLine|)];
    var n := Min(|text|, |tags|);
    newline := "";
    var i := 0;
    while i < n
      invariant 0 <= i <= n
      invariant newline == Raw(text, tags, i)
    {
      assert Raw(text, tags, i + 1) == Raw(text, tags, i) + Piece(text[i], tags[i]);
      if tags[i] == TAG_S || tags[i] == TAG_B {
        newline := newline + [' ', text[i]];
      } else {
        newline := newline + [text[i]];
      }
      i := i + 1;
    }
    assert n == Paired(textLine, tagsLine, length);
    PrefixOfPrefix(textLine, Min(length, |textLine|), n);
    PrefixOfPrefix(tagsLine, Min(length, |tagsLine|), n);
    RawReadsPrefix(text, tags, textLine, tagsLine, n);
    newline := Strip(newline);
  }

  /** The running line after `k` pairs depends on the first `k` characters
      and tags only. */
  lemma {:induction false} RawReadsPrefix(text: seq<char>, tags: seq<int>, text': seq<char>, tags': seq<int>, k: nat)
    requires k <= |text| && k <= |tags| && k <= |text'| && k <= |tags'|
    requires text[..k] == text'[..k] && tags[..k] == tags'[..k]
    ensures Raw(text, tags, k) == Raw(text', tags', k)
  {
    if k > 0 {
      assert text[k - 1] == text[..k][k - 1] && text'[k - 1] == text'[..k][k - 1];
      assert tags[k - 1] == tags[..k][k - 1] && tags'[k - 1] == tags'[..k][k - 1];
      assert text[..k - 1] == text[..k][..k - 1] && text'[..k - 1] == text'[..k][..k - 1];
      assert tags[..k - 1] == tags[..k][..k - 1] && tags'[..k - 1] == tags'[..k][..k - 1];
      RawReadsPrefix(text, tags, text', tags', k - 1);
    }
  }

  /** Only the first `length` characters and tags of a row are read: rows
      that agree there give the same line, whatever padding follows. */
  lemma ReconstructIgnoresPadding(text: seq<char>, tags: seq<int>, text': seq<char>, tags': seq<int>, length: nat)
    requires length <= |text| && length <= |tags| && length <= |text'| && length <= |tags'|
    requires text[..length] == text'[..length] && tags[..length] == tags'[..length]
    ensures Reconstruct(text, tags, length) == Reconstruct(text', tags', length)
  {
    RawReadsPrefix(text, tags, text', tags', length);
  }

  /** Where each character lands in the running line, and what comes just
      before it: a space when its tag is S or B, otherwise the previous
      character (or nothing at all, for the first). */
  lemma {:induction false} RawLayout(text: seq<char>, tags: seq<int>, k: nat, i: nat)
    requires i < k <= |text| && k <= |tags|
    ensures i + Opened(tags, i + 1) < |Raw(text, tags, k)|
    ensures Raw(text, tags, k)[i + Opened(tags, i + 1)] == text[i]
    ensures OpensWord(tags[i]) ==> Raw(text, tags, k)[i + Opened(tags, i + 1) - 1] == ' '
    ensures !OpensWord(tags[i]) && i > 0 ==> Raw(text, tags, k)[i + Opened(tags, i + 1) - 1] == text[i - 1]
    ensures !OpensWord(tags[i]) && i == 0 ==> Opened(tags, i + 1) == 0
  {
    var prev := Raw(text, tags, k - 1);
    assert Raw(text, tags, k) == prev + Piece(text[k - 1], tags[k - 1]);
    if i < k - 1 {
      RawLayout(text, tags, k - 1, i);
    } else if !OpensWord(tags[i]) && i > 0 {
      RawLayout(text, tags, k - 1, i - 1);
      if OpensWord(tags[i - 1]) {
        assert Opened(tags, i) == Opened(tags, i - 1) + 1;
      }
    }
  }

  /** Every word has at least one character. */
  predicate NonEmptyWords(ws: seq<string>) {
    forall j :: 0 <= j < |ws| ==> ws[j] != []
  }

  /** Every word has at least one character and none is whitespace. */
  predicate PlainWords(ws: seq<string>) {
    forall j :: 0 <= j < |ws| ==> ws[j] != [] && NoWhitespace(ws[j])
  }

  lemma SnocLast<T>(s: seq<T>)
    requires s != []
    ensures s[..|s| - 1] + [Last(s)] == s
  {
  }

  lemma SplitAppend<T>(x: seq<T>, y: seq<T>)
    ensures (x + y)[..|x|] == x && (x + y)[|x|..|x + y|] == y && |x + y| == |x| + |y|
  {
  }

  /** One grouping step: character `c` starts a new word when its tag opens
      one (or when there is no word yet), and otherwise joins the last word. */
  function Group(ws: seq<string>, c: char, opens: bool): (r: seq<string>)
    ensures r != []
  {
    if ws == [] || opens then ws + [[c]] else ws[..|ws| - 1] + [Last(ws) + [c]]
  }

  /** A grouping step ends the last word with `c`, keeps the first word's
      first character, and leaves no word empty. */
  lemma GroupEnds(ws: seq<string>, c: char, opens: bool)
    ensures Last(Group(ws, c, opens)) != [] && Last(Last(Group(ws, c, opens))) == c
    ensures ws == [] ==> Group(ws, c, opens) == [[c]]
    ensures ws != [] && ws[0] != [] ==> Group(ws, c, opens)[0] != [] && Group(ws, c, opens)[0][0] == ws[0][0]
  {
  }

  lemma GroupNonEmpty(ws: seq<string>, c: char, opens: bool)
    requires NonEmptyWords(ws)
    ensures NonEmptyWords(Group(ws, c, opens))
  {
    var r := Group(ws, c, opens);
    forall j | 0 <= j < |r|
      ensures r[j] != []
    {
      if j < |ws| - 1 {
        assert r[j] == ws[j];
      }
    }
  }

  /** The words of a line: every character tagged S or B starts a new word,
      every other character joins the word before it (the first character
      always starts one, whatever its tag). */
  function Words(text: seq<char>, tags: seq<int>, k: nat): (ws: seq<string>)
    requires k <= |text| && k <= |tags|
    ensures ws == [] <==> k == 0
  {
    if k == 0 then [] else Group(Words(text, tags, k - 1), text[k - 1], OpensWord(tags[k - 1]))
  }

  /** No word is empty. */
  lemma {:induction false} WordsNonEmpty(text: seq<char>, tags: seq<int>, k: nat)
    requires k <= |text| && k <= |tags|
    ensures NonEmptyWords(Words(text, tags, k))
  {
    if k > 0 {
      WordsNonEmpty(text, tags, k - 1);
      GroupNonEmpty(Words(text, tags, k - 1), text[k - 1], OpensWord(tags[k - 1]));
    }
  }

  /** The first word starts with the row's first character and the last word
      ends with its `k`-th. */
  lemma {:induction false} WordsEnds(text: seq<char>, tags: seq<int>, k: nat)
    requires 0 < k <= |text| && k <= |tags|
    ensures Words(text, tags, k)[0] != [] && Words(text, tags, k)[0][0] == text[0]
    ensures Last(Words(text, tags, k)) != [] && Last(Last(Words(text, tags, k))) == text[k - 1]
  {
    if k > 1 {
      WordsEnds(text, tags, k - 1);
    }
    GroupEnds(Words(text, tags, k - 1), text[k - 1], OpensWord(tags[k - 1]));
  }

  /** The words laid end to end. */
  function Concat(ws: seq<string>): string {
    if ws == [] then [] else Concat(ws[..|ws| - 1]) + Last(ws)
  }

  lemma GroupConcat(ws: seq<string>, c: char, opens: bool)
    ensures Concat(Group(ws, c, opens)) == Concat(ws) + [c]
  {
    var r := Group(ws, c, opens);
    if ws == [] || opens {
      assert r[..|r| - 1] == ws;
    } else {
      var front := ws[..|ws| - 1];
      assert r[..|r| - 1] == front;
      assert Concat(ws) == Concat(front) + Last(ws);
    }
  }

  /** Grouping characters into words keeps every character, in order. */
  lemma {:induction false} WordsKeepText(text: seq<char>, tags: seq<int>, k: nat)
    requires k <= |text| && k <= |tags|
    ensures Concat(Words(text, tags, k)) == text[..k]
  {
    if k > 0 {
      var ws, c, o := Words(text, tags, k - 1), text[k - 1], OpensWord(tags[k - 1]);
      assert Words(text, tags, k) == Group(ws, c, o);
      WordsKeepText(text, tags, k - 1);
      GroupConcat(ws, c, o);
      TakeSnoc(text, k);
    }
  }

  /** Joining by spaces after one grouping step: a new word adds a space and
      the character, a continued word adds only the character. */
  lemma GroupJoin(ws: seq<string>, c: char, opens: bool)
    requires ws != []
    ensures Join(" ", Group(ws, c, opens)) == Join(" ", ws) + (if opens then " " else "") + [c]
  {
    var r := Group(ws, c, opens);
    if opens {
      assert r[..|r| - 1] == ws;
    } else {
      JoinExtendsLast(ws, [c]);
    }
  }

  /** Appending to the last word appends to the joined line. */
  lemma JoinExtendsLast(ws: seq<string>, x: string)
    requires ws != []
    ensures Join(" ", ws[..|ws| - 1] + [Last(ws) + x]) == Join(" ", ws) + x
  {
    var front := ws[..|ws| - 1];
    var ws' := front + [Last(ws) + x];
    assert ws'[..|ws'| - 1] == front;
    assert ws[..|ws| - 1] == front;
  }

  /** Joined words start with the first word's first character and end with
      the last word's last character. */
  lemma {:induction false} JoinEnds(ws: seq<string>)
    requires ws != [] && NonEmptyWords(ws)
    ensures Join(" ", ws) != []
    ensures Join(" ", ws)[0] == ws[0][0]
    ensures Last(Join(" ", ws)) == Last(Last(ws))
  {
    if |ws| > 1 {
      JoinEnds(ws[..|ws| - 1]);
    }
  }

  /** Before stripping, the line is the words joined by single spaces, with
      one extra space in front when the first tag is S or B. */
  lemma {:induction false} RawIsJoinedWords(text: seq<char>, tags: seq<int>, k: nat)
    requires k <= |text| && k <= |tags|
    ensures Raw(text, tags, k) == (if k > 0 && OpensWord(tags[0]) then " " else "") + Join(" ", Words(text, tags, k))
  {
    if k == 1 {
      assert Words(text, tags, 1) == [[text[0]]];
    } else if k > 1 {
      var ws, c, o := Words(text, tags, k - 1), text[k - 1], OpensWord(tags[k - 1]);
      var front := if OpensWord(tags[0]) then " " else "";
      assert Raw(text, tags, k) == Raw(text, tags, k - 1) + Piece(c, tags[k - 1]);
      assert Words(text, tags, k) == Group(ws, c, o);
      RawIsJoinedWords(text, tags, k - 1);
      PieceJoin(front, ws, c, tags[k - 1]);
    }
  }

  /** The piece a pair appends to the running line is what the grouping step
      adds to the joined words. */
  lemma PieceJoin(front: string, ws: seq<string>, c: char, tag: int)
    requires ws != []
    ensures front + Join(" ", ws) + Piece(c, tag) == front + Join(" ", Group(ws, c, OpensWord(tag)))
  {
    GroupJoin(ws, c, OpensWord(tag));
  }

  /** For a row of non-whitespace characters the reconstructed line is
      exactly its words joined by single spaces. */
  lemma ReconstructIsJoinedWords(text: seq<char>, tags: seq<int>, length: nat)
    requires NoWhitespace(text[..Paired(text, tags, length)])
    ensures Reconstruct(text, tags, length) == Join(" ", Words(text, tags, Paired(text, tags, length)))
  {
    var k := Paired(text, tags, length);
    var ws := Words(text, tags, k);
    RawIsJoinedWords(text, tags, k);
    var front := if k > 0 && OpensWord(tags[0]) then " " else "";
    if k > 0 {
      WordsNonEmpty(text, tags, k);
      JoinEnds(ws);
      WordsEnds(text, tags, k);
      assert text[0] == text[..k][0] && text[k - 1] == text[..k][k - 1];
    }
    assert front + Join(" ", ws) + "" == Raw(text, tags, k);
    StripExact(front, Join(" ", ws), "");
  }

  /** No two spaces in a row. */
  predicate SingleSpaced(s: string) {
    forall i :: 0 < i < |s| ==> s[i - 1] != ' ' || s[i] != ' '
  }

  /** `s` with its spaces deleted. */
  function RemoveSpaces(s: string): (r: string)
    ensures |r| <= |s|
  {
    if s == [] then [] else RemoveSpaces(s[..|s| - 1]) + (if Last(s) == ' ' then [] else [Last(s)])
  }

  lemma {:induction false} RemoveSpacesAppend(a: string, b: string)
    ensures RemoveSpaces(a + b) == RemoveSpaces(a) + RemoveSpaces(b)
    decreases |b|
  {
    if b != [] {
      assert (a + b)[..|a + b| - 1] == a + b[..|b| - 1];
      RemoveSpacesAppend(a, b[..|b| - 1]);
    } else {
      assert a + b == a;
    }
  }

  lemma {:induction false} RemoveSpacesKeepsPlain(s: string)
    requires NoWhitespace(s)
    ensures RemoveSpaces(s) == s
  {
    if s != [] {
      RemoveSpacesKeepsPlain(s[..|s| - 1]);
    }
  }

  /** Deleting the spaces of joined words gives the words laid end to end. */
  lemma {:induction false} RemoveSpacesJoin(ws: seq<string>)
    ensures RemoveSpaces(Join(" ", ws)) == RemoveSpaces(Concat(ws))
  {
    if |ws| == 1 {
      assert ws[..0] == [];
      assert Concat(ws) == ws[0];
    } else if |ws| > 1 {
      var front, w := ws[..|ws| - 1], ws[|ws| - 1];
      RemoveSpacesJoin(front);
      RemoveSpacesSeparated(Join(" ", front), w);
      RemoveSpacesAppend(Concat(front), w);
    }
  }

  /** A separating space disappears when spaces are deleted. */
  lemma RemoveSpacesSeparated(x: string, y: string)
    ensures RemoveSpaces(x + " " + y) == RemoveSpaces(x) + RemoveSpaces(y)
  {
    RemoveSpacesAppend(x + " ", y);
    RemoveSpacesAppend(x, " ");
    assert RemoveSpaces(" ") == [] by {
      var sp: string := " ";
      assert sp[..0] == [] && Last(sp) == ' ';
    }
  }

  lemma SingleSpacedAppend(a: string, b: string)
    requires SingleSpaced(a) && SingleSpaced(b)
    requires a == [] || b == [] || Last(a) != ' ' || b[0] != ' '
    ensures SingleSpaced(a + b)
  {
    var s := a + b;
    forall i | 0 < i < |s|
      ensures s[i - 1] != ' ' || s[i] != ' '
    {
      if i < |a| {
        assert s[i - 1] == a[i - 1] && s[i] == a[i];
      } else if i == |a| {
        assert s[i - 1] == Last(a) && s[i] == b[0];
      } else {
        assert s[i - 1] == b[i - 1 - |a|] && s[i] == b[i - |a|];
      }
    }
  }

  /** Words without whitespace, joined by spaces, never give two spaces in a row. */
  lemma {:induction false} JoinSingleSpaced(ws: seq<string>)
    requires PlainWords(ws)
    ensures SingleSpaced(Join(" ", ws))
  {
    if |ws| == 1 {
      assert SingleSpaced(ws[0]);
    } else if |ws| > 1 {
      var front := ws[..|ws| - 1];
      assert PlainWords(front) by {
        forall j | 0 <= j < |front| ensures front[j] == ws[j] { }
      }
      JoinSingleSpaced(front);
      JoinEnds(front);
      SingleSpacedAppend(Join(" ", front), " ");
      assert SingleSpaced(Last(ws));
      SingleSpacedAppend(Join(" ", front) + " ", Last(ws));
    }
  }

  /** A grouping step with a non-whitespace character keeps the words plain. */
  lemma GroupPlain(ws: seq<string>, c: char, opens: bool)
    requires PlainWords(ws) && !IsWhitespace(c)
    ensures PlainWords(Group(ws, c, opens))
  {
    var r := Group(ws, c, opens);
    forall j | 0 <= j < |r|
      ensures r[j] != [] && NoWhitespace(r[j])
    {
      if j < |ws| - 1 {
        assert r[j] == ws[j];
      }
    }
  }

  /** Every word of a row without whitespace is itself without whitespace. */
  lemma {:induction false} WordsArePlain(text: seq<char>, tags: seq<int>, k: nat)
    requires k <= |text| && k <= |tags|
    requires NoWhitespace(text[..k])
    ensures PlainWords(Words(text, tags, k))
  {
    if k > 0 {
      assert text[k - 1] == text[..k][k - 1];
      assert text[..k - 1] == text[..k][..k - 1];
      WordsArePlain(text, tags, k - 1);
      GroupPlain(Words(text, tags, k - 1), text[k - 1], OpensWord(tags[k - 1]));
    }
  }

  /** What the reconstructed line looks like when the row holds no
      whitespace: deleting its spaces gives back the first `length`
      characters in order, and no two spaces stand next to each other. The
      contract of Reconstruct adds that it neither starts nor ends with
      whitespace. */
  lemma ReconstructShape(text: seq<char>, tags: seq<int>, length: nat)
    requires NoWhitespace(text[..Paired(text, tags, length)])
    ensures RemoveSpaces(Reconstruct(text, tags, length)) == text[..Paired(text, tags, length)]
    ensures SingleSpaced(Reconstruct(text, tags, length))
  {
    var k := Paired(text, tags, length);
    var ws := Words(text, tags, k);
    ReconstructIsJoinedWords(text, tags, length);
    RemoveSpacesJoin(ws);
    WordsKeepText(text, tags, k);
    RemoveSpacesKeepsPlain(text[..k]);
    WordsArePlain(text, tags, k);
    JoinSingleSpaced(ws);
  }

  /** The BMES tags of one word of `n` characters. */
  function WordTags(n: nat): (tags: seq<int>)
    ensures |tags| == n && (n > 0 ==> OpensWord(tags[0]))
    ensures forall i :: 0 < i < n ==> !OpensWord(tags[i])
  {
    if n == 0 then [] else if n == 1 then [TAG_S] else [TAG_B] + Middles(n - 2) + [TAG_E]
  }

  /** `m` M tags. */
  function Middles(m: nat): (tags: seq<int>)
    ensures |tags| == m && forall i :: 0 <= i < m ==> tags[i] == TAG_M
  {
    if m == 0 then [] else Middles(m - 1) + [TAG_M]
  }

  /** The BMES tags of a segmentation, word after word. */
  function Retag(ws: seq<string>): (tags: seq<int>)
    ensures |tags| == |Concat(ws)|
  {
    if ws == [] then [] else Retag(ws[..|ws| - 1]) + WordTags(|Last(ws)|)
  }

  /** Grouping looks at the first `k` characters and tags only. */
  lemma {:induction false} WordsReadPrefix(text: seq<char>, tags: seq<int>, text': seq<char>, tags': seq<int>, k: nat)
    requires k <= |text| && k <= |tags| && k <= |text'| && k <= |tags'|
    requires text[..k] == text'[..k] && tags[..k] == tags'[..k]
    ensures Words(text, tags, k) == Words(text', tags', k)
  {
    if k > 0 {
      assert text[k - 1] == text[..k][k - 1] && text'[k - 1] == text'[..k][k - 1];
      assert tags[k - 1] == tags[..k][k - 1] && tags'[k - 1] == tags'[..k][k - 1];
      assert text[..k - 1] == text[..k][..k - 1] && text'[..k - 1] == text'[..k][..k - 1];
      assert tags[..k - 1] == tags[..k][..k - 1] && tags'[..k - 1] == tags'[..k][..k - 1];
      WordsReadPrefix(text, tags, text', tags', k - 1);
    }
  }

  /** Grouping a word-opening character starts a new word. */
  lemma GroupOpens(ws: seq<string>, c: char)
    ensures Group(ws, c, true) == ws + [[c]]
  {
  }

  /** Grouping a character that does not open a word extends the last word. */
  lemma GroupExtends(front: seq<string>, u: string, c: char)
    ensures Group(front + [u], c, false) == front + [u + [c]]
  {
    var ws := front + [u];
    assert ws[..|ws| - 1] == front;
  }

  /** Once the first `n` pairs group into `front`, a word-opening tag at `n`
      followed only by tags that do not open a word groups the characters
      from `n` up to `k` into one more word. */
  lemma {:induction false} WordsExtend(text: seq<char>, tags: seq<int>, n: nat, front: seq<string>, k: nat)
    requires n < k <= |text| && k <= |tags|
    requires Words(text, tags, n) == front
    requires OpensWord(tags[n])
    requires forall i :: n < i < k ==> !OpensWord(tags[i])
    ensures Words(text, tags, k) == front + [text[n..k]]
  {
    if k == n + 1 {
      GroupOpens(front, text[n]);
      assert text[n..k] == [text[n]];
    } else {
      WordsExtend(text, tags, n, front, k - 1);
      GroupExtends(front, text[n..k - 1], text[k - 1]);
      assert text[n..k - 1] + [text[k - 1]] == text[n..k];
    }
  }

  lemma ConcatSnoc(front: seq<string>, w: string)
    ensures Concat(front + [w]) == Concat(front) + w
  {
    assert (front + [w])[..|front|] == front;
  }

  lemma RetagSnoc(front: seq<string>, w: string)
    ensures Retag(front + [w]) == Retag(front) + WordTags(|w|)
  {
    assert (front + [w])[..|front|] == front;
  }

  /** Re-tagging a segmentation with BMES tags and grouping again gives the
      same segmentation. */
  lemma {:induction false} WordsOfRetag(ws: seq<string>)
    requires NonEmptyWords(ws)
    ensures Words(Concat(ws), Retag(ws), |Concat(ws)|) == ws
  {
    if ws != [] {
      var front, w := ws[..|ws| - 1], Last(ws);
      assert NonEmptyWords(front) by {
        forall j | 0 <= j < |front| ensures front[j] == ws[j] { }
      }
      WordsOfRetag(front);
      SnocLast(ws);
      RetagLastWord(front, w);
    }
  }

  /** The step of `WordsOfRetag`: one more word after a segmentation that
      re-tags faithfully. */
  lemma RetagLastWord(front: seq<string>, w: string)
    requires w != []
    requires Words(Concat(front), Retag(front), |Concat(front)|) == front
    ensures Words(Concat(front + [w]), Retag(front + [w]), |Concat(front + [w])|) == front + [w]
  {
    RetagTail(front, w);
    RetagFront(front, w);
    LastWordGroups(Concat(front + [w]), Retag(front + [w]), |Concat(front)|, front, w);
  }

  /** Appending a word leaves the grouping of the earlier words unchanged. */
  lemma RetagFront(front: seq<string>, w: string)
    requires Words(Concat(front), Retag(front), |Concat(front)|) == front
    ensures |Concat(front)| <= |Concat(front + [w])| == |Retag(front + [w])|
    ensures Words(Concat(front + [w]), Retag(front + [w]), |Concat(front)|) == front
  {
    var a, ta := Concat(front), Retag(front);
    var text, tags := Concat(front + [w]), Retag(front + [w]);
    var n := |a|;
    ConcatSnoc(front, w);
    RetagSnoc(front, w);
    SplitAppend(a, w);
    SplitAppend(ta, WordTags(|w|));
    assert a[..n] == a && ta[..n] == ta;
    WordsReadPrefix(text, tags, a, ta, n);
  }

  /** The last word of a row: an opening tag at `n` and no opening tag after
      it make the characters from `n` on one last word. */
  lemma LastWordGroups(text: seq<char>, tags: seq<int>, n: nat, front: seq<string>, w: string)
    requires n < |text| <= |tags| && text[n..|text|] == w
    requires Words(text, tags, n) == front
    requires OpensWord(tags[n]) && forall i :: n < i < |text| ==> !OpensWord(tags[i])
    ensures Words(text, tags, |text|) == front + [w]
  {
    WordsExtend(text, tags, n, front, |text|);
  }

  /** After re-tagging, the last word's tags sit at the end: an opening tag
      where the word starts and no opening tag after it. */
  lemma RetagTail(front: seq<string>, w: string)
    requires w != []
    ensures |Concat(front + [w])| == |Concat(front)| + |w| == |Retag(front + [w])|
    ensures Concat(front + [w])[|Concat(front)|..|Concat(front + [w])|] == w
    ensures OpensWord(Retag(front + [w])[|Concat(front)|])
    ensures forall i :: |Concat(front)| < i < |Concat(front + [w])| ==> !OpensWord(Retag(front + [w])[i])
  {
    var a, ta, tw := Concat(front), Retag(front), WordTags(|w|);
    ConcatSnoc(front, w);
    RetagSnoc(front, w);
    SplitAppend(a, w);
    var tags := ta + tw;
    forall i | |a| < i < |a| + |w|
      ensures !OpensWord(tags[i])
    {
      assert tags[i] == tw[i - |a|];
    }
  }

  /** The BMES tags of a non-empty segmentation start with a word-opening tag. */
  lemma {:induction false} RetagOpens(ws: seq<string>)
    requires ws != [] && NonEmptyWords(ws)
    ensures Retag(ws) != [] && OpensWord(Retag(ws)[0])
  {
    var front, w := ws[..|ws| - 1], Last(ws);
    assert Retag(ws) == Retag(front) + WordTags(|w|);
    if front != [] {
      assert NonEmptyWords(front) by {
        forall j | 0 <= j < |front| ensures front[j] == ws[j] { }
      }
      RetagOpens(front);
    }
  }

  /** A leading space makes no difference once the line is stripped. */
  lemma StripLeadingSpace(x: string)
    ensures Strip(" " + x) == Strip(x)
  {
    var sp: string := " ";
    assert AllWhitespace(sp) by {
      assert sp[0] == ' ';
    }
    TrimStartSkips(sp, x);
  }

  /** Reconstruction is idempotent: re-tag the words of a reconstructed line
      with BMES tags, reconstruct again, and the same line comes out. Both
      lines are the words joined by single spaces and then stripped. */
  lemma ReconstructIdempotent(text: seq<char>, tags: seq<int>, length: nat)
    ensures var ws := Words(text, tags, Paired(text, tags, length));
            Reconstruct(Concat(ws), Retag(ws), |Concat(ws)|) == Reconstruct(text, tags, length)
  {
    var k := Paired(text, tags, length);
    var ws := Words(text, tags, k);
    if k > 0 {
      WordsNonEmpty(text, tags, k);
      var line := Strip(Join(" ", ws));
      assert Reconstruct(text, tags, length) == line by {
        RawIsJoinedWords(text, tags, k);
        StripOptionalSpace(OpensWord(tags[0]), Join(" ", ws));
      }
      assert Reconstruct(Concat(ws), Retag(ws), |Concat(ws)|) == line by {
        RetaggedRaw(ws);
        StripOptionalSpace(true, Join(" ", ws));
      }
    }
  }

  /** Before stripping, the line rebuilt from a re-tagged segmentation is a
      space followed by the words joined by single spaces. */
  lemma RetaggedRaw(ws: seq<string>)
    requires ws != [] && NonEmptyWords(ws)
    ensures Paired(Concat(ws), Retag(ws), |Concat(ws)|) == |Concat(ws)|
    ensures Raw(Concat(ws), Retag(ws), |Concat(ws)|) == " " + Join(" ", ws)
  {
    RetagOpens(ws);
    WordsOfRetag(ws);
    RawIsJoinedWords(Concat(ws), Retag(ws), |Concat(ws)|);
  }

  /** An optional leading space makes no difference once the line is stripped. */
  lemma StripOptionalSpace(space: bool, x: string)
    ensures Strip((if space then " " else "") + x) == Strip(x)
  {
    if space {
      StripLeadingSpace(x);
    } else {
      assert "" + x == x;
    }
  }
}
