/** Helpers of the relay (server/index.js): a JavaScript `Set`, which keeps
    insertion order and holds no duplicates, modelled on sequences; and
    `String.prototype.trim`. */
module RoomSets {

  predicate Distinct<T(==,!new)>(s: seq<T>) {
    forall i, j | 0 <= i < j < |s| :: s[i] != s[j]
  }

  /** `set.add(x)`: appended at the end unless already present. */
  function SetAdd<T(==,!new)>(s: seq<T>, x: T): (r: seq<T>)
    ensures forall y :: y in r <==> y in s || y == x
    ensures Distinct(s) ==> Distinct(r)
    ensures x !in s ==> r == s + [x]
    ensures x in s ==> r == s
  {
    if x in s then s else s + [x]
  }

  /** `set.delete(x)`: the other elements keep their order. */
  function SetDelete<T(==,!new)>(s: seq<T>, x: T): (r: seq<T>)
    ensures forall y :: y in r <==> y in s && y != x
    ensures Distinct(s) ==> Distinct(r)
    ensures Distinct(s) && x in s ==> |r| == |s| - 1
    ensures x !in s ==> r == s
  {
    if s == [] then []
    else if s[0] == x then SetDelete(s[1..], x)
    else
      var rest := SetDelete(s[1..], x);
      assert s[0] !in rest ==> Distinct(s[1..]) ==> Distinct([s[0]] + rest);
      [s[0]] + rest
  }

  /** Deleting a present element of a duplicate-free sequence cuts it out
      at its position: the elements before and after it keep their order. */
  lemma {:induction false} SetDeleteAt<T(!new)>(s: seq<T>, x: T, i: nat)
    requires Distinct(s) && i < |s| && s[i] == x
    ensures SetDelete(s, x) == s[..i] + s[i + 1..]
  {
    var tail := s[1..];
    assert Distinct(tail) by {
      forall a, b | 0 <= a < b < |tail| ensures tail[a] != tail[b] {
        assert tail[a] == s[a + 1] && tail[b] == s[b + 1];
      }
    }
    if i == 0 {
      assert x !in tail by {
        forall j | 0 <= j < |tail| ensures tail[j] != x {
          assert tail[j] == s[j + 1];
        }
      }
      assert SetDelete(s, x) == SetDelete(tail, x) == tail;
    } else {
      assert s[0] != x;
      assert SetDelete(s, x) == [s[0]] + SetDelete(tail, x);
      SetDeleteAt(tail, x, i - 1);
      assert s[..i] == [s[0]] + tail[..i - 1];
      assert s[i + 1..] == tail[i..];
    }
  }

  /** The characters `String.prototype.trim` removes: white space and line
      terminators of ECMAScript. */
  predicate IsJsSpace(ch: char) {
    || ch == '\t' || ch == '\n' || ch == '\U{B}' || ch == '\U{C}' || ch == '\r' || ch == ' '
    || ch == '\U{A0}' || ch == '\U{1680}' || ('\U{2000}' <= ch <= '\U{200A}')
    || ch == '\U{2028}' || ch == '\U{2029}' || ch == '\U{202F}' || ch == '\U{205F}'
    || ch == '\U{3000}' || ch == '\U{FEFF}'
  }

  /** Every character of `s[lo..hi]` is blank. */
  predicate AllBlank(s: string, lo: int, hi: int) {
    0 <= lo <= hi <= |s| && forall i | lo <= i < hi :: IsJsSpace(s[i])
  }

  function TrimStart(s: string): (r: string)
    ensures |r| <= |s| && r == s[|s| - |r|..]
    ensures r == [] || !IsJsSpace(r[0])
    ensures forall i | 0 <= i < |s| - |r| :: IsJsSpace(s[i])
  {
    if s != [] && IsJsSpace(s[0]) then TrimStart(s[1..]) else s
  }

  function TrimEnd(s: string): (r: string)
    ensures |r| <= |s| && r == s[..|r|]
    ensures r == [] || !IsJsSpace(r[|r| - 1])
    ensures forall i | |r| <= i < |s| :: IsJsSpace(s[i])
  {
    if s != [] && IsJsSpace(s[|s| - 1]) then TrimEnd(s[..|s| - 1]) else s
  }

  /** `s.trim()`: empty exactly for an all-blank string; otherwise it
      starts and ends with a non-blank character. */
  function Trim(s: string): (r: string)
    ensures |r| <= |s|
    ensures r == [] <==> forall i | 0 <= i < |s| :: IsJsSpace(s[i])
    ensures r != [] ==> !IsJsSpace(r[0]) && !IsJsSpace(r[|r| - 1])
  {
    var t := TrimStart(s);
    var r := TrimEnd(t);
    TrimBlank(s, t, r);
    r
  }

  /** The trimmed string is the slice of `s` that only blanks precede and
      only blanks follow. */
  lemma {:induction false} TrimIsSlice(s: string)
    ensures exists k :: AllBlank(s, 0, k) && AllBlank(s, k + |Trim(s)|, |s|) && Trim(s) == s[k..k + |Trim(s)|]
  {
    TrimSlice(s, TrimStart(s), Trim(s));
  }

  lemma {:induction false} TrimSlice(s: string, t: string, r: string)
    requires t == TrimStart(s) && r == TrimEnd(t)
    ensures exists k :: AllBlank(s, 0, k) && AllBlank(s, k + |r|, |s|) && r == s[k..k + |r|]
  {
    var k := |s| - |t|;
    PrefixOfSuffix(s, k, t, r);
    assert AllBlank(t, |r|, |t|);
    BlankShift(s, k, t, |r|);
    assert AllBlank(s, 0, k) && AllBlank(s, k + |r|, |s|) && r == s[k..k + |r|];
  }

  lemma {:induction false} PrefixOfSuffix(s: string, k: nat, t: string, r: string)
    requires k <= |s| && t == s[k..] && |r| <= |t| && r == t[..|r|]
    ensures k + |r| <= |s| && r == s[k..k + |r|]
  {
  }

  /** Blanks at the end of a suffix are blanks at the end of the string. */
  lemma {:induction false} BlankShift(s: string, k: nat, t: string, lo: nat)
    requires k <= |s| && t == s[k..] && AllBlank(t, lo, |t|)
    ensures AllBlank(s, k + lo, |s|)
  {
    forall i | k + lo <= i < |s| ensures IsJsSpace(s[i]) {
      assert s[i] == t[i - k];
    }
  }

  lemma {:induction false} TrimBlank(s: string, t: string, r: string)
    requires t == TrimStart(s) && r == TrimEnd(t)
    ensures r == [] <==> forall i | 0 <= i < |s| :: IsJsSpace(s[i])
    ensures r != [] ==> !IsJsSpace(r[0])
  {
    var k := |s| - |t|;
    if t != [] {
      // `t` starts with a non-blank character, which `TrimEnd` keeps.
      assert r != [];
    }
    if r != [] {
      assert r[0] == t[0];
      assert t[0] == s[k];
    }
  }
}
