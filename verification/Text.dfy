/** Trimming, lower-casing and the code-point order on strings, and sorting by a string key. */
module Text {

  // ---------- Trimming ----------

  /** The characters that str.strip removes. */
  predicate IsSpace(c: char) {
    || '\t' <= c <= '\r' || '\U{1C}' <= c <= ' ' || c == '\U{85}' || c == '\U{A0}' || c == '\U{1680}'
    || '\U{2000}' <= c <= '\U{200A}' || c == '\U{2028}' || c == '\U{2029}' || c == '\U{202F}' || c == '\U{205F}'
        || c == '\U{3000}'
  }

  function TrimLeft(s: string): string {
    if s != "" && IsSpace(s[0]) then TrimLeft(s[1..]) else s
  }

  function TrimRight(s: string): (r: string)
    ensures |r| <= |s| && r == s[..|r|]
  {
    if s != "" && IsSpace(s[|s| - 1]) then TrimRight(s[..|s| - 1]) else s
  }

  function Trim(s: string): string {
    TrimRight(TrimLeft(s))
  }

  lemma {:induction false} TrimLeftClean(s: string)
    ensures var r := TrimLeft(s); r == "" || !IsSpace(r[0])
  {
    if s != "" && IsSpace(s[0]) {
      TrimLeftClean(s[1..]);
    }
  }

  lemma {:induction false} TrimRightClean(s: string)
    ensures var r := TrimRight(s); r == "" || !IsSpace(r[|r| - 1])
  {
    if s != "" && IsSpace(s[|s| - 1]) {
      TrimRightClean(s[..|s| - 1]);
    }
  }

  lemma TrimIdempotent(s: string)
    ensures Trim(Trim(s)) == Trim(s)
  {
    var left := TrimLeft(s);
    TrimLeftClean(s);
    TrimRightClean(left);
    var r := TrimRight(left);
    if r != "" {
      assert r[0] == left[0];
    }
  }

  lemma UnspacedTrim(s: string)
    requires s != "" && !IsSpace(s[0]) && !IsSpace(s[|s| - 1])
    ensures Trim(s) == s
  {
    hide IsSpace;
  }

  /** The code points of white space. */
  lemma SpaceIff(c: char)
    ensures IsSpace(c) <==>
              var p := c as int;
              || 0x09 <= p <= 0x0D || 0x1C <= p <= 0x20 || 0x2000 <= p <= 0x200A
              || p in {0x85, 0xA0, 0x1680, 0x2028, 0x2029, 0x202F, 0x205F, 0x3000}
  {
  }

  /** Trimming drops exactly the white space at both ends. */
  lemma TrimIs(s: string) returns (i: nat, j: nat)
    ensures i <= j <= |s| && Trim(s) == s[i..j]
    ensures (forall k :: 0 <= k < i ==> IsSpace(s[k])) && (forall k :: j <= k < |s| ==> IsSpace(s[k]))
    ensures i < j ==> !IsSpace(s[i]) && !IsSpace(s[j - 1])
    ensures (forall k :: 0 <= k < |s| ==> IsSpace(s[k])) <==> Trim(s) == ""
  {
    hide IsSpace, TrimLeft, TrimRight;
    var left := TrimLeft(s);
    i := TrimLeftDrops(s);
    var n := TrimRightDrops(left);
    TrimLeftClean(s);
    TrimRightClean(left);
    j := i + n;
    assert left[..n] == s[i..j];
    forall k | j <= k < |s|
      ensures IsSpace(s[k])
    {
      assert s[k] == left[k - i];
    }
    if i < j {
      assert s[i] == left[0] == left[..n][0] && s[j - 1] == left[..n][n - 1];
    }
  }

  lemma {:induction false} TrimLeftDrops(s: string) returns (i: nat)
    ensures i <= |s| && TrimLeft(s) == s[i..] && forall k :: 0 <= k < i ==> IsSpace(s[k])
  {
    hide IsSpace;
    i := 0;
    if s != "" && IsSpace(s[0]) {
      var rest := TrimLeftDrops(s[1..]);
      i := rest + 1;
      assert forall k :: 1 <= k < i ==> s[k] == s[1..][k - 1];
    }
  }

  lemma {:induction false} TrimRightDrops(s: string) returns (j: nat)
    ensures j <= |s| && TrimRight(s) == s[..j] && forall k :: j <= k < |s| ==> IsSpace(s[k])
  {
    hide IsSpace;
    j := |s|;
    if s != "" && IsSpace(s[|s| - 1]) {
      j := TrimRightDrops(s[..|s| - 1]);
      assert forall k :: j <= k < |s| - 1 ==> s[k] == s[..|s| - 1][k];
    }
  }

  // ---------- Lower case ----------

  function LowerChar(c: char): char {
    if 'A' <= c <= 'Z' then (c - 'A') + 'a' else c
  }

  function Lower(s: string): (r: string)
    ensures |r| == |s|
    ensures forall i :: 0 <= i < |s| ==> r[i] == LowerChar(s[i])
  {
    if s == "" then "" else Lower(s[..|s| - 1]) + [LowerChar(s[|s| - 1])]
  }

  /** Lower-casing adds 32 to the code points of the letters A to Z and keeps all others. */
  lemma LowerIs(s: string, i: nat)
    requires i < |s|
    ensures |Lower(s)| == |s|
    ensures Lower(s)[i] as int == if 65 <= s[i] as int <= 90 then s[i] as int + 32 else s[i] as int
  {
  }

  lemma LowerIdempotent(s: string)
    ensures Lower(Lower(s)) == Lower(s)
  {
  }

  lemma HexIsNoSpace(c: char)
    requires '0' <= LowerChar(c) <= '9' || 'a' <= LowerChar(c) <= 'f'
    ensures !IsSpace(c)
  {
  }

  /** A SHA-256 digest in lower-case hexadecimal. */
  predicate IsHexDigest(s: string) {
    |s| == 64 && forall i :: 0 <= i < 64 ==> '0' <= s[i] <= '9' || 'a' <= s[i] <= 'f'
  }

  lemma HexIsClean(s: string)
    requires IsHexDigest(s)
    ensures Trim(s) == s && Lower(s) == s
  {
    assert !IsSpace(s[0]) && !IsSpace(s[63]);
  }

  // ---------- Order ----------

  predicate Before(a: string, b: string) {
    b != "" && (a == "" || a[0] < b[0] || (a[0] == b[0] && Before(a[1..], b[1..])))
  }

  /** The first place where two strings differ decides: an earlier end or a smaller code point comes first. */
  lemma {:induction false} BeforeIff(a: string, b: string)
    ensures Before(a, b)
       <==> exists k :: 0 <= k <= |a| && k < |b| && a[..k] == b[..k] && (k == |a| || a[k] as int < b[k] as int)
  {
    if a == "" && b != "" {
      assert a[..0] == b[..0];
    }
    if a != "" && b != "" {
      BeforeIff(a[1..], b[1..]);
      if Before(a, b) {
        if a[0] == b[0] {
          var k :| && 0 <= k <= |a[1..]| && k < |b[1..]| && a[1..][..k] == b[1..][..k]
                   && (k == |a[1..]| || a[1..][k] as int < b[1..][k] as int);
          PrefixCons(a, b, k);
        } else {
          assert a[..0] == b[..0];
        }
      }
      if k :| 0 <= k <= |a| && k < |b| && a[..k] == b[..k] && (k == |a| || a[k] as int < b[k] as int) {
        if k > 0 {
          assert a[..k][0] == b[..k][0];
          PrefixCons(a, b, k - 1);
        }
      }
    }
  }

  lemma PrefixCons(a: string, b: string, k: nat)
    requires k < |a| && k < |b| && a[0] == b[0]
    ensures a[1..][..k] == b[1..][..k] <==> a[..k + 1] == b[..k + 1]
  {
    assert a[..k + 1] == [a[0]] + a[1..][..k];
    assert b[..k + 1] == [b[0]] + b[1..][..k];
    if a[..k + 1] == b[..k + 1] {
      assert a[1..][..k] == a[..k + 1][1..] && b[1..][..k] == b[..k + 1][1..];
    }
  }

  lemma {:induction false} BeforeTotal(a: string, b: string)
    ensures a == b || Before(a, b) || Before(b, a)
    ensures Before(a, b) ==> !Before(b, a) && a != b
  {
    if a != "" && b != "" {
      BeforeTotal(a[1..], b[1..]);
      assert a == [a[0]] + a[1..] && b == [b[0]] + b[1..];
    }
  }

  lemma {:induction false} BeforeTransitive(a: string, b: string, c: string)
    requires Before(a, b) && Before(b, c)
    ensures Before(a, c)
  {
    if a != "" && a[0] == b[0] && b[0] == c[0] {
      BeforeTransitive(a[1..], b[1..], c[1..]);
    }
  }

  // ---------- Sorting by key ----------

  function Insert<T>(key: T -> string, x: T, sorted: seq<T>): (r: seq<T>)
    ensures multiset(r) == multiset{x} + multiset(sorted)
  {
    if sorted == [] || Before(key(x), key(sorted[0])) then
      assert [x] + sorted == [x] + sorted;
      [x] + sorted
    else
      assert sorted == [sorted[0]] + sorted[1..];
      [sorted[0]] + Insert(key, x, sorted[1..])
  }

  function SortBy<T>(key: T -> string, s: seq<T>): (r: seq<T>)
    ensures multiset(r) == multiset(s)
  {
    if s == [] then []
    else
      assert s == s[..|s| - 1] + [s[|s| - 1]];
      Insert(key, s[|s| - 1], SortBy(key, s[..|s| - 1]))
  }

  ghost predicate Ascending<T>(key: T -> string, s: seq<T>) {
    forall i, j :: 0 <= i < j < |s| ==> Before(key(s[i]), key(s[j]))
  }

  ghost predicate DistinctBy<T>(key: T -> string, s: seq<T>) {
    forall i, j :: 0 <= i < j < |s| ==> key(s[i]) != key(s[j])
  }

  lemma SameMember<T>(a: seq<T>, b: seq<T>, x: T)
    requires multiset(a) == multiset(b)
    ensures x in a <==> x in b
  {
    assert x in a <==> x in multiset(a);
    assert x in b <==> x in multiset(b);
  }

  lemma SameMembers<T>(a: seq<T>, b: seq<T>)
    requires multiset(a) == multiset(b)
    ensures |a| == |b| && forall x :: x in a <==> x in b
  {
    assert |a| == |multiset(a)| == |multiset(b)| == |b|;
    forall x
      ensures x in a <==> x in b
    {
      SameMember(a, b, x);
    }
  }

  lemma {:induction false} InsertAscends<T>(key: T -> string, x: T, sorted: seq<T>)
    requires Ascending(key, sorted) && forall y <- sorted :: key(y) != key(x)
    ensures Ascending(key, Insert(key, x, sorted))
  {
    if sorted != [] {
      BeforeTotal(key(x), key(sorted[0]));
      if Before(key(x), key(sorted[0])) {
        forall j | 0 <= j < |sorted|
          ensures Before(key(x), key(sorted[j]))
        {
          if j > 0 {
            BeforeTransitive(key(x), key(sorted[0]), key(sorted[j]));
          }
        }
      } else {
        var rest := Insert(key, x, sorted[1..]);
        InsertAscends(key, x, sorted[1..]);
        forall j | 0 <= j < |rest|
          ensures Before(key(sorted[0]), key(rest[j]))
        {
          assert rest[j] in multiset(rest);
          assert rest[j] == x || rest[j] in sorted[1..];
        }
      }
    }
  }

  /** With distinct keys the sorted list is strictly ascending. */
  lemma {:induction false} SortAscends<T>(key: T -> string, s: seq<T>)
    requires DistinctBy(key, s)
    ensures Ascending(key, SortBy(key, s))
  {
    if s != [] {
      var front, last := s[..|s| - 1], s[|s| - 1];
      SortAscends(key, front);
      var sorted := SortBy(key, front);
      forall i | 0 <= i < |sorted|
        ensures key(sorted[i]) != key(last)
      {
        SameMember(sorted, front, sorted[i]);
        var k :| 0 <= k < |front| && front[k] == sorted[i];
        assert s[k] == sorted[i];
      }
      InsertAscends(key, last, SortBy(key, front));
    }
  }

  /** A strictly ascending list is determined by its members. */
  lemma {:induction false} AscendingUnique<T>(key: T -> string, a: seq<T>, b: seq<T>)
    requires Ascending(key, a) && Ascending(key, b)
    requires forall x :: x in a <==> x in b
    ensures a == b
    decreases |a|
  {
    assert b != [] ==> b[0] in b;
    if a != [] {
      assert a[0] in b;
      var j :| 0 <= j < |b| && b[j] == a[0];
      assert b[0] in a;
      var i :| 0 <= i < |a| && a[i] == b[0];
      BeforeTotal(key(a[0]), key(b[0]));
      assert i == 0 && j == 0;
      forall x
        ensures x in a[1..] <==> x in b[1..]
      {
        TailMember(key, a, x);
        TailMember(key, b, x);
      }
      AscendingUnique(key, a[1..], b[1..]);
      assert a == [a[0]] + a[1..] && b == [b[0]] + b[1..];
    }
  }

  lemma TailMember<T>(key: T -> string, s: seq<T>, x: T)
    requires s != [] && Ascending(key, s)
    ensures x in s[1..] <==> x in s && x != s[0]
  {
    BeforeTotal(key(s[0]), key(s[0]));
    assert s == [s[0]] + s[1..];
    if x in s[1..] {
      var i :| 0 <= i < |s[1..]| && s[1..][i] == x;
      assert Before(key(s[0]), key(s[i + 1]));
    }
  }

  /** Sorting lists with distinct keys gives equal results iff the lists have the same members. */
  lemma SortEqualIff<T>(key: T -> string, a: seq<T>, b: seq<T>)
    requires DistinctBy(key, a) && DistinctBy(key, b)
    ensures SortBy(key, a) == SortBy(key, b) <==> (forall x :: x in a <==> x in b)
  {
    SortAscends(key, a);
    SortAscends(key, b);
    SameMembers(SortBy(key, a), a);
    SameMembers(SortBy(key, b), b);
    if forall x :: x in a <==> x in b {
      AscendingUnique(key, SortBy(key, a), SortBy(key, b));
    }
  }
}
