/** The JavaScript string operations the core relies on, over strings of characters. */
module Text {

  /** ECMAScript WhiteSpace and LineTerminator code points, the set `trim` removes. */
  predicate IsWhitespace(c: char) {
    || c == '\t' || c == '\n' || c == '\U{000B}' || c == '\U{000C}' || c == '\r' || c == ' '
    || c == '\U{00A0}' || c == '\U{1680}' || ('\U{2000}' <= c <= '\U{200A}')
    || c == '\U{2028}' || c == '\U{2029}' || c == '\U{202F}' || c == '\U{205F}' || c == '\U{3000}'
    || c == '\U{FEFF}'
  }

  ghost predicate AllWhitespace(s: string) {
    forall i :: 0 <= i < |s| ==> IsWhitespace(s[i])
  }

  /** Neither starts nor ends with whitespace. */
  ghost predicate IsTrimmed(s: string) {
    s == [] || (!IsWhitespace(s[0]) && !IsWhitespace(s[|s| - 1]))
  }

  /** `String.prototype.trimStart`: drops the leading whitespace and nothing else. */
  function TrimStart(s: string): (r: string)
    ensures |r| <= |s| && r == s[|s| - |r|..]
    ensures AllWhitespace(s[..|s| - |r|])
    ensures r == [] || !IsWhitespace(r[0])
    decreases |s|
  {
    if s != [] && IsWhitespace(s[0]) then
      var r := TrimStart(s[1..]);
      assert s[..|s| - |r|] == [s[0]] + s[1..][..|s| - 1 - |r|];
      r
    else s
  }

  /** `String.prototype.trimEnd`: drops the trailing whitespace and nothing else. */
  function TrimEnd(s: string): (r: string)
    ensures |r| <= |s| && r == s[..|r|]
    ensures AllWhitespace(s[|r|..])
    ensures r == [] || !IsWhitespace(r[|r| - 1])
    decreases |s|
  {
    if s != [] && IsWhitespace(s[|s| - 1]) then
      var r := TrimEnd(s[..|s| - 1]);
      assert s[|r|..] == s[..|s| - 1][|r|..] + [s[|s| - 1]];
      r
    else s
  }

  /** `String.prototype.trim`. */
  function Trim(s: string): (r: string)
    ensures IsTrimmed(r)
  {
    TrimEnd(TrimStart(s))
  }

  /** A string without surrounding whitespace is its own trimmed form. */
  lemma TrimOfTrimmed(b: string)
    requires IsTrimmed(b)
    ensures TrimStart(b) == b && TrimEnd(b) == b && Trim(b) == b
  {
  }

  lemma {:induction false} TrimStartPadded(a: string, b: string)
    requires AllWhitespace(a)
    requires b == [] || !IsWhitespace(b[0])
    ensures TrimStart(a + b) == b
    decreases |a|
  {
    if a != [] {
      assert (a + b)[1..] == a[1..] + b;
      TrimStartPadded(a[1..], b);
    }
  }

  lemma {:induction false} TrimEndPadded(b: string, c: string)
    requires AllWhitespace(c)
    requires b == [] || !IsWhitespace(b[|b| - 1])
    ensures TrimEnd(b + c) == b
    decreases |c|
  {
    if c != [] {
      assert (b + c)[..|b + c| - 1] == b + c[..|c| - 1];
      TrimEndPadded(b, c[..|c| - 1]);
    }
  }

  /** Trimming removes exactly the surrounding whitespace: `trim(a + b + c) == b`. */
  lemma TrimPadded(a: string, b: string, c: string)
    requires AllWhitespace(a) && AllWhitespace(c) && IsTrimmed(b)
    ensures Trim(a + b + c) == b
  {
    if b == [] {
      assert a + b + c == a + c;
      if c == [] {
        TrimStartPadded(a, []);
        assert a + c == a + [];
      } else {
        TrimStartPadded(a, []);
        TrimStartPadded(a + c, []) by {
          assert forall i :: 0 <= i < |a + c| ==> (a + c)[i] == if i < |a| then a[i] else c[i - |a|];
        }
        assert a + c == (a + c) + [];
      }
    } else {
      assert a + b + c == a + (b + c);
      TrimStartPadded(a, b + c);
      TrimEndPadded(b, c);
    }
  }

  /** The trimmed text is empty exactly when the input is all whitespace. */
  lemma TrimEmptyIff(s: string)
    ensures Trim(s) == [] <==> AllWhitespace(s)
  {
    var t := TrimStart(s);
    assert t == [] ==> s[..|s| - |t|] == s;
  }

  /** ASCII case mapping of one character (what `toLowerCase` does to ASCII letters). */
  function LowerChar(c: char): (d: char)
    ensures 'A' <= c <= 'Z' ==> d as int == c as int + 32
    ensures !('A' <= c <= 'Z') ==> d == c
  {
    if 'A' <= c <= 'Z' then (c as int + 32) as char else c
  }

  /** `String.prototype.toLowerCase`, restricted to ASCII letters. */
  function ToLower(s: string): (r: string)
    ensures |r| == |s|
    ensures forall i :: 0 <= i < |s| ==> r[i] == LowerChar(s[i])
    ensures forall i :: 0 <= i < |r| ==> !('A' <= r[i] <= 'Z')
  {
    seq(|s|, i requires 0 <= i < |s| => LowerChar(s[i]))
  }

  /** Lower-casing is idempotent. */
  lemma ToLowerIdempotent(s: string)
    ensures ToLower(ToLower(s)) == ToLower(s)
  {
  }

  /** Text without upper-case ASCII letters is its own lower-case form. */
  lemma ToLowerOfLower(s: string)
    requires forall i :: 0 <= i < |s| ==> !('A' <= s[i] <= 'Z')
    ensures ToLower(s) == s
  {
  }

  /** Lower-casing distributes over concatenation. */
  lemma ToLowerConcat(a: string, b: string)
    ensures ToLower(a + b) == ToLower(a) + ToLower(b)
  {
  }

  /** Lower-casing leaves whitespace alone and never turns a character into whitespace. */
  lemma LowerCharWhitespace(c: char)
    ensures IsWhitespace(LowerChar(c)) <==> IsWhitespace(c)
  {
  }

  /** Any string is its trimmed form padded with whitespace on both sides. */
  lemma TrimParts(s: string) returns (a: string, c: string)
    ensures AllWhitespace(a) && AllWhitespace(c)
    ensures s == a + Trim(s) + c
  {
    var t := TrimStart(s);
    var m := TrimEnd(t);
    a := s[..|s| - |t|];
    c := t[|m|..];
    Regroup3(s, t, m);
  }

  /** A suffix `t` of `s` and a prefix `m` of `t` cut `s` into three pieces. */
  lemma Regroup3(s: string, t: string, m: string)
    requires |t| <= |s| && t == s[|s| - |t|..]
    requires |m| <= |t| && m == t[..|m|]
    ensures s == s[..|s| - |t|] + m + t[|m|..]
  {
    assert t == m + t[|m|..];
    assert s == s[..|s| - |t|] + t;
  }

  lemma LowerOfWhitespace(a: string)
    requires AllWhitespace(a)
    ensures ToLower(a) == a
  {
    forall i | 0 <= i < |a| ensures ToLower(a)[i] == a[i] {
      LowerCharWhitespace(a[i]);
    }
  }

  lemma LowerKeepsTrimmed(t: string)
    requires IsTrimmed(t)
    ensures IsTrimmed(ToLower(t))
  {
    if t != [] {
      LowerCharWhitespace(t[0]);
      LowerCharWhitespace(t[|t| - 1]);
    }
  }

  lemma AllWhitespaceConcat(a: string, b: string)
    requires AllWhitespace(a) && AllWhitespace(b)
    ensures AllWhitespace(a + b)
  {
    assert forall i :: 0 <= i < |a + b| ==> (a + b)[i] == if i < |a| then a[i] else b[i - |a|];
  }

  /** Extra surrounding whitespace does not change the trimmed text. */
  lemma TrimIgnoresPadding(a: string, s: string, c: string)
    requires AllWhitespace(a) && AllWhitespace(c)
    ensures Trim(a + s + c) == Trim(s)
  {
    var a1, c1 := TrimParts(s);
    var t := Trim(s);
    AllWhitespaceConcat(a, a1);
    AllWhitespaceConcat(c1, c);
    assert a + s + c == (a + a1) + t + (c1 + c) by {
      Regroup(a, a1, t, c1, c);
    }
    TrimPadded(a + a1, t, c1 + c);
  }

  lemma Regroup<T>(a: seq<T>, b: seq<T>, t: seq<T>, d: seq<T>, e: seq<T>)
    ensures a + (b + t + d) + e == (a + b) + t + (d + e)
  {
  }

  /** Extra leading whitespace does not change what `trimStart` leaves. */
  lemma {:induction false} TrimStartIgnoresPadding(a: string, s: string)
    requires AllWhitespace(a)
    ensures TrimStart(a + s) == TrimStart(s)
    decreases |a|
  {
    if a != [] {
      assert (a + s)[0] == a[0];
      assert (a + s)[1..] == a[1..] + s;
      TrimStartIgnoresPadding(a[1..], s);
    } else {
      assert a + s == s;
    }
  }

  /** Trimming and lower-casing commute. */
  lemma TrimToLower(s: string)
    ensures Trim(ToLower(s)) == ToLower(Trim(s))
  {
    var a, c := TrimParts(s);
    var t := Trim(s);
    ToLowerConcat(a + t, c);
    ToLowerConcat(a, t);
    LowerOfWhitespace(a);
    LowerOfWhitespace(c);
    LowerKeepsTrimmed(t);
    assert ToLower(s) == a + ToLower(t) + c;
    TrimPadded(a, ToLower(t), c);
  }

  predicate StartsWith(s: string, prefix: string) {
    |prefix| <= |s| && s[..|prefix|] == prefix
  }

  predicate EndsWith(s: string, suffix: string) {
    |suffix| <= |s| && s[|s| - |suffix|..] == suffix
  }

  /** `String.prototype.includes`: `sub` occurs somewhere in `s`. */
  predicate Contains(s: string, sub: string)
    decreases |s|
  {
    StartsWith(s, sub) || (s != [] && Contains(s[1..], sub))
  }

  /** `Contains` agrees with the positional reading of `includes`. */
  lemma {:induction false} ContainsIff(s: string, sub: string)
    ensures Contains(s, sub) <==> exists i :: 0 <= i <= |s| - |sub| && StartsWith(s[i..], sub)
    decreases |s|
  {
    if s != [] {
      ContainsIff(s[1..], sub);
      if Contains(s[1..], sub) {
        var i :| 0 <= i <= |s[1..]| - |sub| && StartsWith(s[1..][i..], sub);
        assert s[1..][i..] == s[i + 1..];
      }
      if i :| 0 <= i <= |s| - |sub| && StartsWith(s[i..], sub) {
        if i > 0 {
          assert s[1..][i - 1..] == s[i..];
        }
      }
    } else if sub == [] {
      assert StartsWith(s[0..], sub);
    }
  }
}
