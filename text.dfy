/**
 * The two string facilities the submit handler relies on: `String.prototype.trim`
 * and the anchored character-class patterns `^[...]+$` and `^[...]{n,}$`.
 */
module Text {

  /** ECMAScript WhiteSpace and LineTerminator code points: the set `trim` strips. */
  predicate IsWhitespace(c: char) {
    c == '\t' || c == '\n' || c == '\U{000B}' || c == '\U{000C}' || c == '\r'
    || c == ' ' || c == '\U{00A0}' || c == '\U{1680}'
    || ('\U{2000}' <= c <= '\U{200A}')
    || c == '\U{2028}' || c == '\U{2029}' || c == '\U{202F}' || c == '\U{205F}'
    || c == '\U{3000}' || c == '\U{FEFF}'
  }

  /** Every character of `w` is whitespace (padding `trim` removes). */
  predicate AllWhitespace(w: string) {
    forall i :: 0 <= i < |w| ==> IsWhitespace(w[i])
  }

  /** Neither the first nor the last character of `s` is whitespace. */
  predicate NoOuterWhitespace(s: string) {
    s == [] || (!IsWhitespace(s[0]) && !IsWhitespace(s[|s| - 1]))
  }

  /** Drops the leading whitespace of `s`. */
  function TrimStart(s: string): (r: string)
    ensures |r| <= |s|
    ensures r == [] || !IsWhitespace(r[0])
    decreases |s|
  {
    if |s| > 0 && IsWhitespace(s[0]) then TrimStart(s[1..]) else s
  }

  /** Drops the trailing whitespace of `s`. */
  function TrimEnd(s: string): (r: string)
    ensures |r| <= |s|
    ensures r == [] || !IsWhitespace(r[|r| - 1])
    decreases |s|
  {
    if |s| > 0 && IsWhitespace(s[|s| - 1]) then TrimEnd(s[..|s| - 1]) else s
  }

  /** `TrimStart` keeps a suffix of `s` and drops only whitespace. */
  lemma {:induction false} TrimStartIsSuffix(s: string)
    ensures var r := TrimStart(s);
      && r == s[|s| - |r|..]
      && forall i :: 0 <= i < |s| - |r| ==> IsWhitespace(s[i])
    decreases |s|
  {
    if |s| > 0 && IsWhitespace(s[0]) {
      TrimStartIsSuffix(s[1..]);
    }
  }

  /** `TrimEnd` keeps a prefix of `s` and drops only whitespace. */
  lemma {:induction false} TrimEndIsPrefix(s: string)
    ensures var r := TrimEnd(s);
      && r == s[..|r|]
      && forall i :: |r| <= i < |s| ==> IsWhitespace(s[i])
    decreases |s|
  {
    if |s| > 0 && IsWhitespace(s[|s| - 1]) {
      TrimEndIsPrefix(s[..|s| - 1]);
    }
  }

  /** `String.prototype.trim`: whitespace removed at both ends. */
  function Trim(s: string): (r: string)
    ensures |r| <= |s|
    ensures NoOuterWhitespace(r)
  {
    var t := TrimStart(s);
    var r := TrimEnd(t);
    TrimEndIsPrefix(t);
    assert r != [] ==> r[0] == t[0];
    r
  }

  /** Number of whitespace characters `trim` removes from the front of `s`. */
  function Lead(s: string): (n: nat)
    ensures n <= |s|
  {
    |s| - |TrimStart(s)|
  }

  /**
   * The trimmed value is the slice of `s` left once the whitespace at both ends
   * is removed, and everything removed is whitespace.
   */
  lemma TrimIsSlice(s: string)
    ensures Lead(s) + |Trim(s)| <= |s|
    ensures Trim(s) == s[Lead(s)..Lead(s) + |Trim(s)|]
    ensures forall i :: 0 <= i < Lead(s) ==> IsWhitespace(s[i])
    ensures forall i :: Lead(s) + |Trim(s)| <= i < |s| ==> IsWhitespace(s[i])
  {
    var t := TrimStart(s);
    TrimStartIsSuffix(s);
    TrimEndIsPrefix(t);
    var r := Trim(s);
    assert r == t[..|r|];
    forall i | Lead(s) + |r| <= i < |s|
      ensures IsWhitespace(s[i])
    {
      assert s[i] == t[i - Lead(s)];
    }
  }

  /** A string with no outer whitespace has no leading whitespace to drop. */
  lemma {:induction false} TrimStartOfWhitespaceThen(w: string, m: string)
    requires AllWhitespace(w)
    requires m == [] || !IsWhitespace(m[0])
    ensures TrimStart(w + m) == m
    decreases |w|
  {
    if w == [] {
      assert w + m == m;
    } else {
      assert (w + m)[1..] == w[1..] + m;
      TrimStartOfWhitespaceThen(w[1..], m);
    }
  }

  lemma {:induction false} TrimEndOfThenWhitespace(m: string, w: string)
    requires AllWhitespace(w)
    requires m == [] || !IsWhitespace(m[|m| - 1])
    ensures TrimEnd(m + w) == m
    decreases |w|
  {
    if w == [] {
      assert m + w == m;
    } else {
      assert (m + w)[..|m + w| - 1] == m + w[..|w| - 1];
      TrimEndOfThenWhitespace(m, w[..|w| - 1]);
    }
  }

  /**
   * `trim` is characterised by its result: whatever whitespace surrounds a string
   * without outer whitespace, trimming gives back exactly that string.
   */
  lemma {:induction false} TrimCharacterized(p: string, m: string, q: string)
    requires AllWhitespace(p)
    requires AllWhitespace(q)
    requires NoOuterWhitespace(m)
    ensures Trim(p + m + q) == m
  {
    if m == [] {
      assert p + m + q == p + q;
      var pq := p + q;
      assert forall i :: 0 <= i < |pq| ==> IsWhitespace(pq[i]);
      TrimStartOfWhitespaceThen(pq, []);
      assert pq + [] == pq;
    } else {
      assert p + m + q == p + (m + q);
      TrimStartOfWhitespaceThen(p, m + q);
      TrimEndOfThenWhitespace(m, q);
    }
  }

  /** Trimming twice is trimming once. */
  lemma TrimIdempotent(s: string)
    ensures Trim(Trim(s)) == Trim(s)
  {
    var m := Trim(s);
    assert [] + m + [] == m;
    TrimCharacterized([], m, []);
  }

  /** The character classes the validator uses: `[A-Za-z ]` and `[0-9]`. */
  datatype CharClass = LettersOrSpace | Digits

  predicate InClass(k: CharClass, c: char) {
    match k
    case LettersOrSpace => ('A' <= c <= 'Z') || ('a' <= c <= 'z') || c == ' '
    case Digits => '0' <= c <= '9'
  }

  /** An anchored pattern `^[k]{min,}$`; `^[k]+$` is `Repeat(k, 1)`. */
  datatype Pattern = Repeat(cls: CharClass, min: nat)

  /**
   * Regular-expression matching of `s` against `p`: the first character is consumed
   * by one repetition of the class, the rest must match with one repetition fewer
   * still required. Its meaning: at least `min` characters, every one in the class.
   */
  function Matches(p: Pattern, s: string): (b: bool)
    ensures b <==> |s| >= p.min && forall i :: 0 <= i < |s| ==> InClass(p.cls, s[i])
    decreases |s|
  {
    if s == [] then p.min == 0
    else InClass(p.cls, s[0]) && Matches(Repeat(p.cls, if p.min == 0 then 0 else p.min - 1), s[1..])
  }
}
