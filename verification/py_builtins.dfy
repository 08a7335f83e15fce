/** Python built-in behaviour the driver relies on: `str.strip()`, `str.join`,
    the `%` operator on integers and the exceptions that end a run. */
module PyBuiltins {

  /** The exceptions that escape the driver's functions uncaught. */
  datatype PyError = AssertionError | ZeroDivisionError

  datatype Option<T> = None | Some(value: T)

  datatype Result<T> = Ok(value: T) | Err(error: PyError)

  /** What a run leaves behind: everything it produced so far, and whether it
      ran to its end or stopped by raising an exception. */
  datatype Log<T> = Finished(items: seq<T>) | Raised(items: seq<T>, error: PyError)
  {
    /** The same run with `front` produced before it. */
    function Prepend(front: seq<T>): (r: Log<T>)
      ensures r.items == front + items
      ensures r.Finished? == Finished?
      ensures Raised? ==> r.error == error
    {
      match this
      case Finished(xs) => Finished(front + xs)
      case Raised(xs, e) => Raised(front + xs, e)
    }

    /** Producing `a` and then `b` in front of a run is producing `a + b`. */
    lemma PrependTwice(a: seq<T>, b: seq<T>)
      ensures Prepend(b).Prepend(a) == Prepend(a + b)
    {
      assert a + (b + items) == a + b + items;
    }
  }

  /** The last element of a non-empty sequence (Python's `s[-1]`). */
  function Last<T>(s: seq<T>): T
    requires s != []
  {
    s[|s| - 1]
  }

  /** A prefix one element longer is the shorter prefix and that element. */
  lemma TakeSnoc<T>(s: seq<T>, k: nat)
    requires 0 < k <= |s|
    ensures s[..k] == s[..k - 1] + [s[k - 1]]
  {
  }

  /** Cutting a prefix to a shorter length is cutting the whole to it. */
  lemma PrefixOfPrefix<T>(s: seq<T>, m: nat, n: nat)
    requires n <= m <= |s|
    ensures s[..m][..n] == s[..n]
  {
  }

  /** The characters for which Python's `str.isspace()` holds; `str.strip()`
      with no argument removes exactly these. */
  predicate IsWhitespace(c: char) {
    ('\t' <= c <= '\r') || ('\U{1C}' <= c <= ' ') || c == '\U{85}' || c == '\U{A0}'
    || c == '\U{1680}' || ('\U{2000}' <= c <= '\U{200A}') || c == '\U{2028}' || c == '\U{2029}'
    || c == '\U{202F}' || c == '\U{205F}' || c == '\U{3000}'
  }

  predicate NoWhitespace(s: string) {
    forall i :: 0 <= i < |s| ==> !IsWhitespace(s[i])
  }

  predicate AllWhitespace(s: string) {
    forall i :: 0 <= i < |s| ==> IsWhitespace(s[i])
  }

  /** `s.lstrip()`: `s` without its leading whitespace. */
  function TrimStart(s: string): (r: string)
    ensures |r| <= |s|
    ensures r == [] || !IsWhitespace(r[0])
    decreases |s|
  {
    if |s| > 0 && IsWhitespace(s[0]) then TrimStart(s[1..]) else s
  }

  /** `lstrip` removes a prefix of whitespace and nothing else: what remains
      is the suffix of `s` after that prefix. */
  lemma {:induction false} TrimStartSuffix(s: string)
    ensures TrimStart(s) == s[|s| - |TrimStart(s)|..]
    ensures AllWhitespace(s[..|s| - |TrimStart(s)|])
    decreases |s|
  {
    if |s| > 0 && IsWhitespace(s[0]) {
      var r := TrimStart(s[1..]);
      TrimStartSuffix(s[1..]);
      assert s[1..][|s| - 1 - |r|..] == s[|s| - |r|..];
      assert s[..|s| - |r|] == [s[0]] + s[1..][..|s| - 1 - |r|];
    }
  }

  /** `s.rstrip()`: `s` without its trailing whitespace. */
  function TrimEnd(s: string): (r: string)
    ensures |r| <= |s|
    ensures r == [] || !IsWhitespace(r[|r| - 1])
    decreases |s|
  {
    if |s| > 0 && IsWhitespace(s[|s| - 1]) then TrimEnd(s[..|s| - 1]) else s
  }

  /** `rstrip` removes a suffix of whitespace and nothing else: what remains
      is the prefix of `s` before that suffix. */
  lemma {:induction false} TrimEndPrefix(s: string)
    ensures TrimEnd(s) == s[..|TrimEnd(s)|]
    ensures AllWhitespace(s[|TrimEnd(s)|..])
    decreases |s|
  {
    if |s| > 0 && IsWhitespace(s[|s| - 1]) {
      var r := TrimEnd(s[..|s| - 1]);
      TrimEndPrefix(s[..|s| - 1]);
      assert s[..|s| - 1][..|r|] == s[..|r|];
      assert s[|r|..] == s[..|s| - 1][|r|..] + [s[|s| - 1]];
    }
  }

  /** `s.strip()`: whitespace removed from both ends. */
  function Strip(s: string): (r: string)
    ensures |r| <= |s|
    ensures r == [] || (!IsWhitespace(r[0]) && !IsWhitespace(r[|r| - 1]))
  {
    var t := TrimStart(s);
    TrimEndPrefix(t);
    TrimEnd(t)
  }

  /** Stripping removes all the surrounding whitespace and nothing more: a
      string made of whitespace, a core that neither starts nor ends with
      whitespace, and more whitespace, strips to exactly that core. */
  lemma StripExact(front: string, core: string, back: string)
    requires AllWhitespace(front) && AllWhitespace(back)
    requires core == [] || (!IsWhitespace(core[0]) && !IsWhitespace(core[|core| - 1]))
    ensures Strip(front + core + back) == core
  {
    var rest := core + back;
    assert front + core + back == front + rest;
    TrimStartSkips(front, rest);
    if core == [] {
      assert rest == back + [];
      TrimStartSkips(back, []);
    } else {
      StripCore(core, back);
    }
  }

  lemma StripCore(core: string, back: string)
    requires core != [] && !IsWhitespace(core[0]) && !IsWhitespace(core[|core| - 1])
    requires AllWhitespace(back)
    ensures TrimEnd(TrimStart(core + back)) == core
  {
    assert (core + back)[0] == core[0];
    TrimEndSkips(core, back);
  }

  /** Leading whitespace never survives `lstrip`. */
  lemma {:induction false} TrimStartSkips(ws: string, s: string)
    requires AllWhitespace(ws)
    ensures TrimStart(ws + s) == TrimStart(s)
    decreases |ws|
  {
    if ws == [] {
      assert ws + s == s;
    } else {
      assert (ws + s)[1..] == ws[1..] + s;
      TrimStartSkips(ws[1..], s);
    }
  }

  /** Trailing whitespace never survives `rstrip`. */
  lemma {:induction false} TrimEndSkips(s: string, ws: string)
    requires AllWhitespace(ws)
    ensures TrimEnd(s + ws) == TrimEnd(s)
    decreases |ws|
  {
    if ws == [] {
      assert s + ws == s;
    } else {
      assert (s + ws)[..|s + ws| - 1] == s + ws[..|ws| - 1];
      TrimEndSkips(s, ws[..|ws| - 1]);
    }
  }

  /** `sep.join(parts)`. */
  function Join(sep: string, parts: seq<string>): (r: string)
    decreases |parts|
  {
    if |parts| == 0 then []
    else if |parts| == 1 then parts[0]
    else Join(sep, parts[..|parts| - 1]) + sep + parts[|parts| - 1]
  }

  /** Python's `a // b`: the quotient rounded toward minus infinity. */
  function FloorDiv(a: int, b: int): int
    requires b != 0
  {
    if b < 0 && a % b != 0 then a / b - 1 else a / b
  }

  /** Python's `a % b`: the remainder takes the sign of the divisor, and
      `a == (a // b) * b + a % b`. Dafny's `%` is Euclidean, so the two differ
      when `b` is negative. */
  function PyMod(a: int, b: int): (r: int)
    requires b != 0
    ensures b > 0 ==> 0 <= r < b
    ensures b < 0 ==> b < r <= 0
    ensures a == FloorDiv(a, b) * b + r
  {
    var m := a % b;
    if b < 0 && m != 0 then
      assert (a / b - 1) * b == (a / b) * b - b;
      m + b
    else m
  }

  /** `a % b == 0` in Python holds exactly when `a` is a whole multiple of `b`. */
  lemma PyModZeroIffMultiple(a: int, b: int)
    requires b != 0
    ensures PyMod(a, b) == 0 <==> exists q :: a == q * b
  {
    var r := PyMod(a, b);
    var f := FloorDiv(a, b);
    if r == 0 {
      assert a == f * b;
    }
    if q :| a == q * b {
      assert (q - f) * b == r by {
        assert (q - f) * b == q * b - f * b;
      }
      if q != f {
        MultipleMagnitude(q - f, b);
        assert false;
      }
    }
  }

  /** A non-zero multiple of `b` is at least as large as `b` in magnitude. */
  lemma MultipleMagnitude(k: int, b: int)
    requires k != 0 && b != 0
    ensures Abs(k * b) >= Abs(b)
  {
    if k > 0 {
      PositiveMultiple(k, b);
    } else {
      PositiveMultiple(-k, b);
      assert k * b == -((-k) * b);
    }
  }

  lemma {:induction false} PositiveMultiple(k: nat, b: int)
    requires k >= 1
    ensures b > 0 ==> k * b >= b
    ensures b < 0 ==> k * b <= b
  {
    if k > 1 {
      PositiveMultiple(k - 1, b);
      assert k * b == (k - 1) * b + b;
    }
  }

  function Abs(x: int): int { if x < 0 then -x else x }
}
