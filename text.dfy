/**
 * Character classes and string operations used by the ingestion pipeline,
 * over ASCII: JavaScript's `\w` and `\s`, `toLowerCase`, `trim`, and the
 * substring test behind a `contains` query.
 */
module Text {

  type Text = seq<char>

  /** JavaScript's `\w` (without the `u` flag): ASCII letters, digits and `_`. */
  predicate IsWordChar(c: char) {
    ('a' <= c <= 'z') || ('A' <= c <= 'Z') || ('0' <= c <= '9') || c == '_'
  }

  /** JavaScript's `\s` restricted to ASCII: space, tab, LF, VT, FF, CR. */
  predicate IsSpace(c: char) {
    c == ' ' || ('\t' <= c <= '\r')
  }

  predicate IsHyphen(c: char) {
    c == '-'
  }

  predicate IsUpper(c: char) {
    'A' <= c <= 'Z'
  }

  predicate NotUpper(c: char) {
    !IsUpper(c)
  }

  /** Every character of `s` is in the class `q`. */
  predicate Every(s: Text, q: char -> bool) {
    forall i :: 0 <= i < |s| ==> q(s[i])
  }

  /** `String.prototype.toLowerCase` on one ASCII character. */
  function Lower(c: char): (r: char)
    ensures !IsUpper(r)
    ensures IsUpper(c) ==> 'a' <= r <= 'z' && r as int - 'a' as int == c as int - 'A' as int
    ensures !IsUpper(c) ==> r == c
  {
    if IsUpper(c) then (c as int + 32) as char else c
  }

  function LowerText(s: Text): (r: Text)
    ensures |r| == |s|
    ensures forall i :: 0 <= i < |s| ==> r[i] == Lower(s[i])
    ensures Every(r, NotUpper)
  {
    seq(|s|, i requires 0 <= i < |s| => Lower(s[i]))
  }

  function TrimStart(s: Text): (r: Text)
    ensures r == [] || !IsSpace(r[0])
    ensures |r| <= |s| && r == s[|s| - |r|..]
    ensures forall i :: 0 <= i < |s| - |r| ==> IsSpace(s[i])
    decreases |s|
  {
    if s != [] && IsSpace(s[0]) then TrimStart(s[1..]) else s
  }

  function TrimEnd(s: Text): (r: Text)
    ensures r == [] || !IsSpace(r[|r| - 1])
    ensures |r| <= |s| && r == s[..|r|]
    ensures forall i :: |r| <= i < |s| ==> IsSpace(s[i])
    decreases |s|
  {
    if s != [] && IsSpace(s[|s| - 1]) then TrimEnd(s[..|s| - 1]) else s
  }

  /** `String.prototype.trim`: drops leading and trailing white space. */
  function Trim(s: Text): (r: Text)
    ensures |r| <= |s|
    ensures r == [] || (!IsSpace(r[0]) && !IsSpace(r[|r| - 1]))
    ensures exists a :: TrimmedAt(s, r, a)
  {
    var t := TrimStart(s);
    var r := TrimEnd(t);
    assert r == [] || !IsSpace(r[0]) by {
      assert r == t[..|r|];
    }
    assert TrimmedAt(s, r, |s| - |t|) by {
      var a := |s| - |t|;
      forall i | a + |r| <= i < |s| ensures IsSpace(s[i]) {
        assert s[i] == t[i - a];
      }
      assert s[a..a + |r|] == t[..|r|];
    }
    r
  }

  /** `r` is `s` with the white space before index `a` and after index `a + |r|` dropped. */
  predicate TrimmedAt(s: Text, r: Text, a: int) {
    0 <= a && a + |r| <= |s| && r == s[a..a + |r|]
    && (forall i :: 0 <= i < a ==> IsSpace(s[i]))
    && (forall i :: a + |r| <= i < |s| ==> IsSpace(s[i]))
  }

  /** A text that neither starts nor ends with white space is its own trim. */
  lemma TrimUnchanged(s: Text)
    requires s == [] || (!IsSpace(s[0]) && !IsSpace(s[|s| - 1]))
    ensures Trim(s) == s
  {
    assert TrimStart(s) == s;
    assert TrimEnd(s) == s;
  }

  /** Trimming only removes characters, so it keeps any character class. */
  lemma TrimKeeps(s: Text, q: char -> bool)
    requires Every(s, q)
    ensures Every(Trim(s), q)
  {
    var t := TrimStart(s);
    EveryDrop(s, |s| - |t|, q);
    EveryTake(t, |TrimEnd(t)|, q);
  }

  lemma EveryDrop(s: Text, n: nat, q: char -> bool)
    requires Every(s, q) && n <= |s|
    ensures Every(s[n..], q)
  {
    forall i | 0 <= i < |s| - n ensures q(s[n..][i]) {
      assert s[n..][i] == s[n + i];
    }
  }

  lemma EveryTake(s: Text, n: nat, q: char -> bool)
    requires Every(s, q) && n <= |s|
    ensures Every(s[..n], q)
  {
    forall i | 0 <= i < n ensures q(s[..n][i]) {
      assert s[..n][i] == s[i];
    }
  }

  /** `substring(0, n)`. */
  function Prefix(s: Text, n: nat): (r: Text)
    ensures r <= s
    ensures |r| == if |s| <= n then |s| else n
  {
    if |s| <= n then s else s[..n]
  }

  /** `s` holds `t` as a contiguous piece (a `contains` filter). */
  predicate Contains(s: Text, t: Text)
    decreases |s|
  {
    t <= s || (s != [] && Contains(s[1..], t))
  }

  /** `t` occurs in `s` starting at index `k`. */
  predicate OccursAt(s: Text, t: Text, k: nat) {
    k + |t| <= |s| && s[k..k + |t|] == t
  }

  /** A slice of the tail is the slice of the text one place further on. */
  lemma TailSlice(s: Text, i: nat, j: nat)
    requires s != [] && i <= j <= |s| - 1
    ensures s[1..][i..j] == s[i + 1..j + 1]
  {
    forall m | 0 <= m < j - i ensures s[1..][i..j][m] == s[i + 1..j + 1][m] {
      assert s[1..][i..j][m] == s[i + 1 + m];
    }
  }

  /** The recursive `Contains` agrees with the search for an occurrence. */
  lemma {:induction false} ContainsIff(s: Text, t: Text)
    ensures Contains(s, t) <==> exists k: nat :: OccursAt(s, t, k)
    decreases |s|
  {
    if Contains(s, t) {
      if t <= s {
        assert OccursAt(s, t, 0);
      } else {
        ContainsIff(s[1..], t);
        var k: nat :| OccursAt(s[1..], t, k);
        TailSlice(s, k, k + |t|);
        assert OccursAt(s, t, k + 1);
      }
    }
    if exists k: nat :: OccursAt(s, t, k) {
      var k: nat :| OccursAt(s, t, k);
      if k == 0 {
        assert t <= s;
      } else {
        TailSlice(s, k - 1, k - 1 + |t|);
        assert OccursAt(s[1..], t, k - 1);
        ContainsIff(s[1..], t);
      }
    }
  }
}
