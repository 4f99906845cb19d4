/** The string trimming the event handlers apply to user input (String.prototype.trim). */
module Text {

  /** The fixed set of characters trim strips: the ECMAScript WhiteSpace and LineTerminator code points. */
  predicate IsWhitespace(c: char) {
    c == ' ' || c == '\t' || c == '\n' || c == '\r' || c == '\U{000B}' || c == '\U{000C}'
    || c == '\U{00A0}' || c == '\U{1680}' || ('\U{2000}' <= c <= '\U{200A}')
    || c == '\U{2028}' || c == '\U{2029}' || c == '\U{202F}' || c == '\U{205F}'
    || c == '\U{3000}' || c == '\U{FEFF}'
  }

  predicate AllWhitespace(s: string) {
    forall i :: 0 <= i < |s| ==> IsWhitespace(s[i])
  }

  /** A string with no whitespace at either end: what a trim leaves behind. */
  predicate Trimmed(s: string) {
    s == [] || (!IsWhitespace(s[0]) && !IsWhitespace(s[|s| - 1]))
  }

  /** Drops the leading whitespace: the result is a suffix of s, all that was
      dropped is whitespace, and the result does not start with whitespace. */
  function TrimStart(s: string): (r: string)
    ensures |r| <= |s| && r == s[|s| - |r|..]
    ensures forall i :: 0 <= i < |s| - |r| ==> IsWhitespace(s[i])
    ensures r == [] || !IsWhitespace(r[0])
  {
    if |s| > 0 && IsWhitespace(s[0]) then
      var r := TrimStart(s[1..]);
      assert forall i :: 1 <= i < |s| ==> s[1..][i - 1] == s[i];
      r
    else s
  }

  /** Drops the trailing whitespace: the result is a prefix of s, all that was
      dropped is whitespace, and the result does not end with whitespace. */
  function TrimEnd(s: string): (r: string)
    ensures |r| <= |s| && r == s[..|r|]
    ensures forall i :: |r| <= i < |s| ==> IsWhitespace(s[i])
    ensures r == [] || !IsWhitespace(r[|r| - 1])
  {
    if |s| > 0 && IsWhitespace(s[|s| - 1]) then
      var r := TrimEnd(s[..|s| - 1]);
      assert forall i :: 0 <= i < |s| - 1 ==> s[..|s| - 1][i] == s[i];
      r
    else s
  }

  /** Drops whitespace at both ends. The result is empty exactly when s is all
      whitespace, and otherwise neither starts nor ends with whitespace.
      TrimOfPadded below pins the result down: it is the middle of s once a
      whitespace prefix and a whitespace suffix are removed. */
  function Trim(s: string): (r: string)
    ensures r == [] <==> AllWhitespace(s)
    ensures Trimmed(r)
    ensures |r| <= |s|
  {
    var t := TrimStart(s);
    assert t != [] ==> t[0] == s[|s| - |t|];
    var r := TrimEnd(t);
    assert forall i :: 0 <= i < |t| ==> t[i] == s[|s| - |t| + i];
    r
  }

  /** TrimStart removes exactly a whitespace prefix placed before a string
      that does not start with whitespace. */
  lemma {:induction false} TrimStartOfPadded(a: string, rest: string)
    requires AllWhitespace(a)
    requires rest == [] || !IsWhitespace(rest[0])
    ensures TrimStart(a + rest) == rest
  {
    if a == [] {
      assert a + rest == rest;
    } else {
      assert (a + rest)[0] == a[0];
      assert (a + rest)[1..] == a[1..] + rest;
      TrimStartOfPadded(a[1..], rest);
    }
  }

  /** TrimEnd removes exactly a whitespace suffix placed after a string that
      does not end with whitespace. */
  lemma {:induction false} TrimEndOfPadded(rest: string, b: string)
    requires AllWhitespace(b)
    requires rest == [] || !IsWhitespace(rest[|rest| - 1])
    ensures TrimEnd(rest + b) == rest
  {
    if b == [] {
      assert rest + b == rest;
    } else {
      var x := rest + b;
      assert x[|x| - 1] == b[|b| - 1];
      assert x[..|x| - 1] == rest + b[..|b| - 1];
      TrimEndOfPadded(rest, b[..|b| - 1]);
    }
  }

  /** Trim recovers the middle of a string padded with whitespace on both sides. */
  lemma TrimOfPadded(a: string, m: string, b: string)
    requires AllWhitespace(a) && AllWhitespace(b) && Trimmed(m)
    ensures Trim(a + m + b) == m
  {
    var x := a + m + b;
    if m == [] {
      assert x == a + b;
      assert AllWhitespace(x) by {
        forall i | 0 <= i < |x| ensures IsWhitespace(x[i]) {
          if i < |a| { assert x[i] == a[i]; } else { assert x[i] == b[i - |a|]; }
        }
      }
    } else {
      assert x == a + (m + b);
      TrimStartOfPadded(a, m + b);
      TrimEndOfPadded(m, b);
    }
  }

  /** Trimming twice is trimming once. */
  lemma TrimIdempotent(s: string)
    ensures Trim(Trim(s)) == Trim(s)
  {
    var t := Trim(s);
    assert [] + t + [] == t;
    TrimOfPadded([], t, []);
  }
}
