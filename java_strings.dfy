/** The parts of `java.lang.String` that the modelled code relies on:
    ASCII case mapping, `trim`, `split` on a one-character delimiter, and
    joining with a delimiter (what a `StringBuilder` loop with a separator
    produces). */
module JavaStrings {

  // ---------------------------------------------------------------- case

  predicate IsAsciiUpper(c: char) { 'A' <= c <= 'Z' }
  predicate IsAsciiLower(c: char) { 'a' <= c <= 'z' }
  predicate IsAsciiLetter(c: char) { IsAsciiUpper(c) || IsAsciiLower(c) }

  function LowerChar(c: char): char {
    if IsAsciiUpper(c) then (c as int + 32) as char else c
  }

  function UpperChar(c: char): char {
    if IsAsciiLower(c) then (c as int - 32) as char else c
  }

  /** `String.toLowerCase()`, restricted to the ASCII letters. */
  function ToLower(s: string): (r: string)
    ensures |r| == |s|
    ensures forall i :: 0 <= i < |s| ==> r[i] == LowerChar(s[i])
  {
    seq(|s|, i requires 0 <= i < |s| => LowerChar(s[i]))
  }

  /** `String.toUpperCase()`, restricted to the ASCII letters. */
  function ToUpper(s: string): (r: string)
    ensures |r| == |s|
    ensures forall i :: 0 <= i < |s| ==> r[i] == UpperChar(s[i])
  {
    seq(|s|, i requires 0 <= i < |s| => UpperChar(s[i]))
  }

  lemma ToUpperOfUpper(s: string)
    requires forall i :: 0 <= i < |s| ==> IsAsciiUpper(s[i])
    ensures ToUpper(s) == s
  {
  }

  lemma ToLowerOfLower(s: string)
    requires forall i :: 0 <= i < |s| ==> !IsAsciiUpper(s[i])
    ensures ToLower(s) == s
  {
  }

  // ---------------------------------------------------------------- trim

  /** `trim` strips every character at or below U+0020 from both ends. */
  predicate IsBlank(c: char) { c <= ' ' }

  function TrimStart(s: string): (r: string)
    ensures |r| <= |s| && r == s[|s| - |r|..]
    ensures forall k :: 0 <= k < |s| - |r| ==> IsBlank(s[k])
    ensures |r| == 0 || !IsBlank(r[0])
  {
    if |s| > 0 && IsBlank(s[0]) then TrimStart(s[1..]) else s
  }

  function TrimEnd(s: string): (r: string)
    ensures |r| <= |s| && r == s[..|r|]
    ensures forall k :: |r| <= k < |s| ==> IsBlank(s[k])
    ensures |r| == 0 || !IsBlank(r[|r| - 1])
  {
    if |s| > 0 && IsBlank(s[|s| - 1]) then TrimEnd(s[..|s| - 1]) else s
  }

  /** `String.trim()`. */
  function Trim(s: string): (r: string)
    ensures |r| == 0 || (!IsBlank(r[0]) && !IsBlank(r[|r| - 1]))
  {
    TrimEnd(TrimStart(s))
  }

  /** A string without blanks at either end is its own trim. */
  lemma TrimOfTrimmed(s: string)
    requires |s| == 0 || (!IsBlank(s[0]) && !IsBlank(s[|s| - 1]))
    ensures Trim(s) == s
  {
  }

  /** Lower-casing neither creates nor removes blanks at the ends, so the
      normal form `ToLower(Trim(s))` is a fixed point. */
  lemma {:induction false} LowerTrimIdempotent(s: string)
    ensures ToLower(Trim(ToLower(Trim(s)))) == ToLower(Trim(s))
  {
    var u := Trim(s);
    var t := ToLower(u);
    if |u| > 0 {
      LowerCharKeepsBlanks(u[0]);
      LowerCharKeepsBlanks(u[|u| - 1]);
    }
    TrimOfTrimmed(t);
    forall i | 0 <= i < |t| ensures !IsAsciiUpper(t[i]) {
      LowerCharKeepsBlanks(u[i]);
    }
    ToLowerOfLower(t);
  }

  /** Lower-casing one character leaves no upper-case letter and maps
      blanks to blanks and non-blanks to non-blanks. */
  lemma LowerCharKeepsBlanks(c: char)
    ensures !IsAsciiUpper(LowerChar(c))
    ensures IsBlank(LowerChar(c)) <==> IsBlank(c)
  {
  }

  // ---------------------------------------------------------------- split / join

  /** Every piece between delimiters, empty pieces included. */
  function SplitAll(s: string, d: char): (r: seq<string>)
    ensures |r| >= 1
    ensures forall i :: 0 <= i < |r| ==> d !in r[i]
    decreases |s|
  {
    if |s| == 0 then [""]
    else
      var rest := SplitAll(s[1..], d);
      if s[0] == d then [""] + rest
      else [[s[0]] + rest[0]] + rest[1..]
  }

  /** Pieces joined with the delimiter between each two. */
  function Join(xs: seq<string>, d: char): string
  {
    if |xs| == 0 then "" else if |xs| == 1 then xs[0] else xs[0] + [d] + Join(xs[1..], d)
  }

  /** Java's `split` drops trailing empty pieces. */
  function StripTrailingEmpty(xs: seq<string>): (r: seq<string>)
    ensures |r| <= |xs| && r == xs[..|r|]
    ensures |r| == 0 || r[|r| - 1] != ""
    ensures forall i :: |r| <= i < |xs| ==> xs[i] == ""
  {
    if |xs| > 0 && xs[|xs| - 1] == "" then StripTrailingEmpty(xs[..|xs| - 1]) else xs
  }

  /** `s.split(d)` for a delimiter that is not a regular-expression
      metacharacter: the whole string when the delimiter does not occur,
      otherwise every piece with the trailing empty ones removed. */
  function JavaSplit(s: string, d: char): seq<string>
  {
    if d !in s then [s] else StripTrailingEmpty(SplitAll(s, d))
  }

  /** The text before the first `d` (all of `s` when there is none). */
  function TakeUntil(s: string, d: char): (r: string)
    ensures d !in r
  {
    if |s| == 0 || s[0] == d then "" else [s[0]] + TakeUntil(s[1..], d)
  }

  lemma JoinCons(x: string, xs: seq<string>, d: char)
    requires |xs| > 0
    ensures Join([x] + xs, d) == x + [d] + Join(xs, d)
  {
    assert ([x] + xs)[1..] == xs;
  }

  lemma {:induction false} JoinSnoc(xs: seq<string>, x: string, d: char)
    requires |xs| > 0
    ensures Join(xs + [x], d) == Join(xs, d) + [d] + x
    decreases |xs|
  {
    if |xs| == 1 {
      assert xs + [x] == [xs[0]] + [x];
    } else {
      assert xs + [x] == [xs[0]] + (xs[1..] + [x]);
      JoinCons(xs[0], xs[1..] + [x], d);
      JoinSnoc(xs[1..], x, d);
    }
  }

  /** Joining the pieces of a split gives back the string. */
  lemma {:induction false} JoinSplitAll(s: string, d: char)
    ensures Join(SplitAll(s, d), d) == s
    decreases |s|
  {
    if |s| > 0 {
      var rest := SplitAll(s[1..], d);
      JoinSplitAll(s[1..], d);
      if s[0] == d {
        JoinCons("", rest, d);
        assert s == [d] + s[1..];
      } else {
        var r := [[s[0]] + rest[0]] + rest[1..];
        if |rest| == 1 {
          assert s == [s[0]] + s[1..];
        } else {
          JoinCons(rest[0], rest[1..], d);
          JoinCons([s[0]] + rest[0], rest[1..], d);
          assert rest == [rest[0]] + rest[1..];
          assert s == [s[0]] + s[1..];
        }
      }
    }
  }

  lemma {:induction false} SplitAllUndelimited(x: string, d: char)
    requires d !in x
    ensures SplitAll(x, d) == [x]
    decreases |x|
  {
    if |x| > 0 {
      SplitAllUndelimited(x[1..], d);
      assert x == [x[0]] + x[1..];
    }
  }

  lemma {:induction false} SplitAllAppend(a: string, b: string, d: char)
    requires d !in a
    ensures SplitAll(a + [d] + b, d) == [a] + SplitAll(b, d)
    decreases |a|
  {
    var s := a + [d] + b;
    if |a| == 0 {
      assert s == [d] + b && s[1..] == b;
    } else {
      assert s[1..] == a[1..] + [d] + b;
      SplitAllAppend(a[1..], b, d);
      assert a == [a[0]] + a[1..];
    }
  }

  /** Splitting a join of delimiter-free pieces gives back the pieces. */
  lemma {:induction false} SplitAllJoin(xs: seq<string>, d: char)
    requires |xs| > 0
    requires forall i :: 0 <= i < |xs| ==> d !in xs[i]
    ensures SplitAll(Join(xs, d), d) == xs
    decreases |xs|
  {
    if |xs| == 1 {
      SplitAllUndelimited(xs[0], d);
    } else {
      SplitAllJoin(xs[1..], d);
      SplitAllAppend(xs[0], Join(xs[1..], d), d);
      assert xs == [xs[0]] + xs[1..];
    }
  }

  /** The first piece is the text before the first delimiter. */
  lemma {:induction false} SplitAllHead(s: string, d: char)
    ensures SplitAll(s, d)[0] == TakeUntil(s, d)
    decreases |s|
  {
    if |s| > 0 && s[0] != d {
      SplitAllHead(s[1..], d);
    }
  }

  lemma {:induction false} SplitAllOfDelimiters(s: string, d: char)
    requires forall k :: 0 <= k < |s| ==> s[k] == d
    ensures forall i :: 0 <= i < |SplitAll(s, d)| ==> SplitAll(s, d)[i] == ""
    decreases |s|
  {
    if |s| > 0 {
      SplitAllOfDelimiters(s[1..], d);
    }
  }

  lemma {:induction false} JoinOfEmpties(xs: seq<string>, d: char)
    requires forall i :: 0 <= i < |xs| ==> xs[i] == ""
    ensures forall k :: 0 <= k < |Join(xs, d)| ==> Join(xs, d)[k] == d
    decreases |xs|
  {
    if |xs| > 1 {
      JoinOfEmpties(xs[1..], d);
    }
  }

  /** `split` yields no token at all exactly for a non-empty string made
      only of delimiters. */
  lemma JavaSplitEmpty(s: string, d: char)
    ensures |JavaSplit(s, d)| == 0 <==> |s| > 0 && forall k :: 0 <= k < |s| ==> s[k] == d
  {
    var all := SplitAll(s, d);
    if |s| > 0 && forall k :: 0 <= k < |s| ==> s[k] == d {
      assert s[0] == d;
      SplitAllOfDelimiters(s, d);
    }
    if |JavaSplit(s, d)| == 0 {
      assert d in s;
      JoinSplitAll(s, d);
      JoinOfEmpties(all, d);
    }
  }

  /** When `split` yields a token, the first is the text before the first
      delimiter. */
  lemma JavaSplitHead(s: string, d: char)
    requires |JavaSplit(s, d)| > 0
    ensures JavaSplit(s, d)[0] == TakeUntil(s, d)
  {
    if d in s {
      SplitAllHead(s, d);
    } else {
      SplitAllUndelimited(s, d);
      SplitAllHead(s, d);
    }
  }

  /** `split` inverts a join of delimiter-free pieces whose last piece is
      not empty. */
  lemma JavaSplitJoin(xs: seq<string>, d: char)
    requires |xs| > 0 && xs[|xs| - 1] != ""
    requires forall i :: 0 <= i < |xs| ==> d !in xs[i]
    ensures JavaSplit(Join(xs, d), d) == xs
  {
    var s := Join(xs, d);
    SplitAllJoin(xs, d);
    if |xs| > 1 {
      JoinCons(xs[0], xs[1..], d);
      assert s[|xs[0]|] == d;
    } else {
      SplitAllUndelimited(xs[0], d);
    }
  }
}
