/** Whitespace trimming as performed by Foundation's
    `String.trimmingCharacters(in: .whitespacesAndNewlines)`, which every
    lookup applies to its input before anything else. */
module Text {

  /** The characters of Foundation's `whitespacesAndNewlines` set: the control
      characters TAB, LF, VT, FF and CR, NEXT LINE, and every character of the
      Unicode categories Zs, Zl and Zp. */
  predicate IsWhitespace(c: char) {
    ('\t' <= c <= '\r') || c == ' ' || c == '\U{0085}' || c == '\U{00A0}' || c == '\U{1680}'
    || ('\U{2000}' <= c <= '\U{200A}') || c == '\U{2028}' || c == '\U{2029}'
    || c == '\U{202F}' || c == '\U{205F}' || c == '\U{3000}'
  }

  predicate AllWhitespace(s: string) {
    forall i :: 0 <= i < |s| ==> IsWhitespace(s[i])
  }

  /** Neither end of `s` is a whitespace character. */
  predicate Unpadded(s: string) {
    s == [] || (!IsWhitespace(s[0]) && !IsWhitespace(s[|s| - 1]))
  }

  /** `s` without leading and trailing whitespace: drops one whitespace
      character from the front, or else from the back, until neither end is
      whitespace. */
  function Trim(s: string): (r: string)
    ensures |r| <= |s|
    ensures Unpadded(r)
  {
    if s != [] && IsWhitespace(s[0]) then Trim(s[1..])
    else if s != [] && IsWhitespace(s[|s| - 1]) then Trim(s[..|s| - 1])
    else s
  }

  /** Trim removes only whitespace: the input is the result wrapped in
      whitespace on both sides. */
  lemma {:induction false} TrimSplit(s: string) returns (a: string, b: string)
    ensures s == a + Trim(s) + b
    ensures AllWhitespace(a) && AllWhitespace(b)
  {
    if s != [] && IsWhitespace(s[0]) {
      var a', b' := TrimSplit(s[1..]);
      var t := Trim(s[1..]);
      assert Trim(s) == t;
      a, b := [s[0]] + a', b';
      WhitespaceConcat([s[0]], a');
      calc {
        s;
        [s[0]] + s[1..];
        [s[0]] + (a' + t + b');
        a + t + b;
      }
    } else if s != [] && IsWhitespace(s[|s| - 1]) {
      var n := |s| - 1;
      var a', b' := TrimSplit(s[..n]);
      var t := Trim(s[..n]);
      assert Trim(s) == t;
      a, b := a', b' + [s[n]];
      WhitespaceConcat(b', [s[n]]);
      calc {
        s;
        s[..n] + [s[n]];
        (a' + t + b') + [s[n]];
        a + t + b;
      }
    } else {
      a, b := [], [];
      assert s == a + s + b;
    }
  }

  lemma WhitespaceConcat(x: string, y: string)
    requires AllWhitespace(x) && AllWhitespace(y)
    ensures AllWhitespace(x + y)
  {
    forall i | 0 <= i < |x + y| ensures IsWhitespace((x + y)[i]) {
      if i >= |x| {
        assert (x + y)[i] == y[i - |x|];
      }
    }
  }

  /** Leading whitespace does not change what Trim returns. */
  lemma {:induction false} TrimDropsPrefix(a: string, x: string)
    requires AllWhitespace(a)
    ensures Trim(a + x) == Trim(x)
  {
    if a != [] {
      var s := a + x;
      assert s[0] == a[0];
      assert s[1..] == a[1..] + x;
      TrimDropsPrefix(a[1..], x);
    } else {
      assert a + x == x;
    }
  }

  /** Trailing whitespace after a string that does not start with whitespace
      does not change what Trim returns. */
  lemma {:induction false} TrimDropsSuffixAfterCore(m: string, b: string)
    requires AllWhitespace(b)
    requires m == [] || !IsWhitespace(m[0])
    ensures Trim(m + b) == Trim(m)
  {
    if b == [] {
      assert m + b == m;
    } else if m == [] {
      assert m + b == b + [];
      TrimDropsPrefix(b, []);
    } else {
      var s := m + b;
      assert s[0] == m[0] && s[|s| - 1] == b[|b| - 1];
      assert s[..|s| - 1] == m + b[..|b| - 1];
      TrimDropsSuffixAfterCore(m, b[..|b| - 1]);
    }
  }

  /** Trimming leaves an unpadded string alone. */
  lemma TrimUnpadded(m: string)
    requires Unpadded(m)
    ensures Trim(m) == m
  {
  }

  /** Trim removes all such whitespace: whatever is wrapped in whitespace on
      both sides and is itself unpadded is what Trim returns. With TrimSplit
      this determines Trim. */
  lemma TrimOfPadded(a: string, m: string, b: string)
    requires AllWhitespace(a) && AllWhitespace(b)
    requires Unpadded(m)
    ensures Trim(a + m + b) == m
  {
    assert a + m + b == a + (m + b);
    TrimDropsPrefix(a, m + b);
    TrimDropsSuffixAfterCore(m, b);
    TrimUnpadded(m);
  }

  /** Trimming twice trims nothing more. */
  lemma TrimIdempotent(s: string)
    ensures Trim(Trim(s)) == Trim(s)
  {
    TrimUnpadded(Trim(s));
  }

  /** A term trims to the empty string exactly when it is all whitespace:
      the guard that turns a lookup into a no-op. */
  lemma TrimEmptyIff(s: string)
    ensures Trim(s) == [] <==> AllWhitespace(s)
  {
    var a, b := TrimSplit(s);
    if Trim(s) == [] {
      assert s == a + b;
      assert forall i :: 0 <= i < |s| ==> s[i] == if i < |a| then a[i] else b[i - |a|];
    }
    if AllWhitespace(s) {
      assert s + [] + [] == s;
      TrimOfPadded(s, [], []);
    }
  }

  /** Trailing whitespace does not change what Trim returns. */
  lemma TrimDropsSuffix(m: string, b: string)
    requires AllWhitespace(b)
    ensures Trim(m + b) == Trim(m)
  {
    var a, c := TrimSplit(m);
    var t := Trim(m);
    if t == [] {
      TrimEmptyIff(m);
      WhitespaceConcat(m, b);
      TrimEmptyIff(m + b);
    } else {
      assert m + b == a + (t + (c + b));
      TrimDropsPrefix(a, t + (c + b));
      WhitespaceConcat(c, b);
      TrimDropsSuffixAfterCore(t, c + b);
      TrimUnpadded(t);
    }
  }
}
