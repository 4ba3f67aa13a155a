/**
  The secret-collection algebra of the `secret` package: the Key/Value
  record, its ordering, the slice operations that feed the sort, the
  list/map conversions and the two-way diff used by synchronisation.

  A Go `*Secret` is modelled as an immutable `Secret` value: nothing in the
  package mutates a secret's fields, and the diff only re-shares the input
  elements. A `[]*Secret` is a `seq<Secret>`, except where the package sorts
  a slice in place, where it is an `array<Secret>`.
 */
module Secrets {

  /** A key=value pair. */
  datatype Secret = Secret(key: string, value: string)

  // ---------------------------------------------------------------------
  // Go string ordering
  // ---------------------------------------------------------------------

  /** Go's `<` on strings: lexicographic, element by element; a proper
      prefix is smaller. (Dafny's own `<` on sequences means "proper
      prefix".) Characters compare by code point, which is the order of
      their UTF-8 encodings, so this agrees with Go's bytewise comparison. */
  predicate StrLess(a: string, b: string): (r: bool)
    ensures r ==> a != b
    decreases |a|
  {
    if |a| == 0 then |b| > 0
    else if |b| == 0 then false
    else if a[0] != b[0] then a[0] < b[0]
    else StrLess(a[1..], b[1..])
  }

  /** The textbook definition: a and b agree up to some position i, and
      there either a ends while b goes on, or a's element is smaller. */
  ghost predicate DiffersFirstAt(a: string, b: string, i: int)
  {
    0 <= i <= |a| && i <= |b| && a[..i] == b[..i] &&
    ((i == |a| && i < |b|) || (i < |a| && i < |b| && a[i] < b[i]))
  }

  lemma {:induction false} StrLessIsLexicographic(a: string, b: string)
    ensures StrLess(a, b) <==> exists i :: DiffersFirstAt(a, b, i)
    decreases |a|
  {
    if StrLess(a, b) {
      if |a| == 0 || a[0] != b[0] {
        assert DiffersFirstAt(a, b, 0);
      } else {
        StrLessIsLexicographic(a[1..], b[1..]);
        var i :| DiffersFirstAt(a[1..], b[1..], i);
        assert a[..i + 1] == [a[0]] + a[1..][..i];
        assert b[..i + 1] == [b[0]] + b[1..][..i];
        assert DiffersFirstAt(a, b, i + 1);
      }
    }
    if exists i :: DiffersFirstAt(a, b, i) {
      var i :| DiffersFirstAt(a, b, i);
      if i > 0 {
        assert a[0] == a[..i][0] == b[..i][0] == b[0];
        assert a[1..][..i - 1] == a[..i][1..];
        assert b[1..][..i - 1] == b[..i][1..];
        assert DiffersFirstAt(a[1..], b[1..], i - 1);
        StrLessIsLexicographic(a[1..], b[1..]);
      }
    }
  }

  lemma {:induction false} StrLessIrreflexive(a: string)
    ensures !StrLess(a, a)
    decreases |a|
  {
    if |a| > 0 {
      StrLessIrreflexive(a[1..]);
    }
  }

  lemma {:induction false} StrLessAsymmetric(a: string, b: string)
    ensures StrLess(a, b) ==> !StrLess(b, a)
    decreases |a|
  {
    if |a| > 0 && |b| > 0 && a[0] == b[0] {
      StrLessAsymmetric(a[1..], b[1..]);
    }
  }

  lemma {:induction false} StrLessTransitive(a: string, b: string, c: string)
    requires StrLess(a, b) && StrLess(b, c)
    ensures StrLess(a, c)
    decreases |a|
  {
    if |a| > 0 && a[0] == b[0] && b[0] == c[0] {
      StrLessTransitive(a[1..], b[1..], c[1..]);
    }
  }

  lemma {:induction false} StrLessTrichotomy(a: string, b: string)
    ensures a == b || StrLess(a, b) || StrLess(b, a)
    decreases |a|
  {
    if |a| > 0 && |b| > 0 && a[0] == b[0] {
      StrLessTrichotomy(a[1..], b[1..]);
      if a[1..] == b[1..] {
        assert a == [a[0]] + a[1..] && b == [b[0]] + b[1..];
      }
    }
  }

  // ---------------------------------------------------------------------
  // Secrets.Less / Len / Swap
  // ---------------------------------------------------------------------

  /** `Secrets.Less` on the two elements it compares. The branches follow
      the source one for one: the last two both answer false. */
  predicate Less(si: Secret, sj: Secret): (r: bool)
    ensures r ==> si != sj
  {
    if StrLess(si.key, sj.key) then true
    else if StrLess(sj.key, si.key) then false
    else if StrLess(si.value, sj.value) then true
    else if StrLess(sj.value, si.value) then false
    else false
  }

  /** Less is lexicographic on (key, value). */
  lemma LessIsLexicographic(a: Secret, b: Secret)
    ensures Less(a, b) <==> StrLess(a.key, b.key) || (a.key == b.key && StrLess(a.value, b.value))
  {
    StrLessAsymmetric(a.key, b.key);
    StrLessIrreflexive(a.key);
    StrLessTrichotomy(a.key, b.key);
  }

  lemma LessIrreflexive(s: Secret)
    ensures !Less(s, s)
  {
    StrLessIrreflexive(s.key);
    StrLessIrreflexive(s.value);
  }

  lemma LessAsymmetric(a: Secret, b: Secret)
    ensures Less(a, b) ==> !Less(b, a)
  {
    LessIsLexicographic(a, b);
    LessIsLexicographic(b, a);
    StrLessAsymmetric(a.key, b.key);
    StrLessAsymmetric(a.value, b.value);
  }

  lemma LessTransitive(a: Secret, b: Secret, c: Secret)
    requires Less(a, b) && Less(b, c)
    ensures Less(a, c)
  {
    LessIsLexicographic(a, b);
    LessIsLexicographic(b, c);
    LessIsLexicographic(a, c);
    if StrLess(a.key, b.key) && StrLess(b.key, c.key) {
      StrLessTransitive(a.key, b.key, c.key);
    } else if a.key == b.key && b.key == c.key {
      StrLessTransitive(a.value, b.value, c.value);
    }
  }

  /** Any two different secrets are ordered one way or the other. */
  lemma LessConnected(a: Secret, b: Secret)
    ensures a != b ==> Less(a, b) || Less(b, a)
  {
    LessIsLexicographic(a, b);
    LessIsLexicographic(b, a);
    StrLessTrichotomy(a.key, b.key);
    StrLessTrichotomy(a.value, b.value);
  }

  /** "Not greater" is transitive: the fact an insertion step relies on. */
  lemma NotLessTransitive(a: Secret, b: Secret, c: Secret)
    requires !Less(b, a) && !Less(c, b)
    ensures !Less(c, a)
  {
    LessConnected(a, b);
    LessConnected(b, c);
    LessIrreflexive(a);
    LessAsymmetric(a, c);
    if a != b && b != c {
      LessTransitive(a, b, c);
    }
  }

  /** `Secrets.Len`. */
  function Len(ss: array<Secret>): (n: nat)
    reads ss
    ensures n == |ss[..]|
  {
    ss.Length
  }

  /** `Secrets.Less(i, j)`: compares the elements at two positions. */
  predicate LessAt(ss: array<Secret>, i: int, j: int): (r: bool)
    requires 0 <= i < ss.Length && 0 <= j < ss.Length
    reads ss
    ensures r ==> i != j && ss[i] != ss[j]
  {
    Less(ss[i], ss[j])
  }

  /** `Secrets.Swap(i, j)`: exchanges two positions, nothing else moves. */
  method Swap(ss: array<Secret>, i: int, j: int)
    requires 0 <= i < ss.Length && 0 <= j < ss.Length
    modifies ss
    ensures ss[..] == old(ss[..])[i := old(ss[j])][j := old(ss[i])]
    ensures multiset(ss[..]) == multiset(old(ss[..]))
  {
    ss[i], ss[j] := ss[j], ss[i];
  }

  /** Non-decreasing under Less: no later element is less than an earlier one. */
  ghost predicate Sorted(s: seq<Secret>)
  {
    forall i, j :: 0 <= i < j < |s| ==> !Less(s[j], s[i])
  }

  /** The contract of `sort.Sort` driven by `Len`, `Less` and `Swap`: the
      slice ends sorted and holds the same elements. The steps are those
      of an insertion sort; the sort package's own algorithm is not part
      of this model. */
  method Sort(ss: array<Secret>)
    modifies ss
    ensures Sorted(ss[..])
    ensures multiset(ss[..]) == multiset(old(ss[..]))
  {
    var n := Len(ss);
    var i := 0;
    while i < n
      invariant 0 <= i <= n
      invariant forall k, l :: 0 <= k < l < i ==> !Less(ss[l], ss[k])
      invariant multiset(ss[..]) == multiset(old(ss[..]))
    {
      var j := i;
      while j > 0 && LessAt(ss, j, j - 1)
        invariant 0 <= j <= i
        invariant forall k, l :: 0 <= k < l <= i && k != j && l != j ==> !Less(ss[l], ss[k])
        invariant forall l :: j < l <= i ==> !Less(ss[l], ss[j])
        invariant multiset(ss[..]) == multiset(old(ss[..]))
      {
        LessAsymmetric(ss[j], ss[j - 1]);
        Swap(ss, j - 1, j);
        j := j - 1;
      }
      if j > 0 {
        forall k | 0 <= k < j - 1
          ensures !Less(ss[j], ss[k])
        {
          NotLessTransitive(ss[k], ss[j - 1], ss[j]);
        }
      }
      i := i + 1;
    }
  }

  // ---------------------------------------------------------------------
  // ListToMap
  // ---------------------------------------------------------------------

  /** The keys occurring in a list. */
  function KeysOf(secrets: seq<Secret>): set<string>
  {
    set c | c in secrets :: c.key
  }

  /** Every key occurs at most once. */
  ghost predicate DistinctKeys(secrets: seq<Secret>)
  {
    forall i, j :: 0 <= i < j < |secrets| ==> secrets[i].key != secrets[j].key
  }

  /** c is present in m with c's value. */
  predicate IsEntry(c: Secret, m: map<string, string>)
  {
    c.key in m && m[c.key] == c.value
  }

  /** The map a list folds into, one insertion per element in list order. */
  function ToMap(secrets: seq<Secret>): (m: map<string, string>)
    ensures m.Keys == KeysOf(secrets)
  {
    if secrets == [] then map[]
    else
      var init, last := secrets[..|secrets| - 1], secrets[|secrets| - 1];
      assert secrets == init + [last];
      ToMap(init)[last.key := last.value]
  }

  /** The last entry carrying a key decides that key's value. */
  lemma {:induction false} ToMapLastWins(secrets: seq<Secret>, i: int)
    requires 0 <= i < |secrets|
    requires forall j :: i < j < |secrets| ==> secrets[j].key != secrets[i].key
    ensures IsEntry(secrets[i], ToMap(secrets))
  {
    if i < |secrets| - 1 {
      ToMapLastWins(secrets[..|secrets| - 1], i);
    }
  }

  /** With distinct keys, every element is an entry of the folded map. */
  lemma {:induction false} ToMapOfDistinct(secrets: seq<Secret>)
    requires DistinctKeys(secrets)
    ensures forall c :: c in secrets ==> IsEntry(c, ToMap(secrets))
  {
    forall i | 0 <= i < |secrets|
      ensures IsEntry(secrets[i], ToMap(secrets))
    {
      ToMapLastWins(secrets, i);
    }
  }

  /** `ListToMap`: later entries overwrite earlier ones with the same key. */
  method ListToMap(secrets: seq<Secret>) returns (secretMap: map<string, string>)
    ensures secretMap == ToMap(secrets)
  {
    secretMap := map[];
    for i := 0 to |secrets|
      invariant secretMap == ToMap(secrets[..i])
    {
      assert secrets[..i + 1][..i] == secrets[..i];
      secretMap := secretMap[secrets[i].key := secrets[i].value];
    }
    assert secrets[..|secrets|] == secrets;
  }

  // ---------------------------------------------------------------------
  // MapToList
  // ---------------------------------------------------------------------

  /** s lists the entries of m: one element per entry, nothing else. */
  ghost predicate EntriesOf(s: seq<Secret>, m: map<string, string>)
  {
    DistinctKeys(s) &&
    (forall c :: c in s ==> IsEntry(c, m)) &&
    (forall k :: k in m ==> Secret(k, m[k]) in s)
  }

  lemma {:induction false} DistinctKeysCount(s: seq<Secret>)
    requires DistinctKeys(s)
    ensures |KeysOf(s)| == |s|
  {
    if s != [] {
      var init, last := s[..|s| - 1], s[|s| - 1];
      assert s == init + [last];
      assert KeysOf(s) == KeysOf(init) + {last.key};
      assert last.key !in KeysOf(init);
      DistinctKeysCount(init);
    }
  }

  /** A list of the entries of m folds back into m and has |m| elements. */
  lemma EntriesRoundTrip(s: seq<Secret>, m: map<string, string>)
    requires EntriesOf(s, m)
    ensures ToMap(s) == m
    ensures |s| == |m|
  {
    var folded := ToMap(s);
    assert KeysOf(s) == m.Keys by {
      forall k | k in m ensures k in KeysOf(s) {
        assert Secret(k, m[k]) in s;
      }
    }
    forall k | k in m ensures folded[k] == m[k] {
      var c := Secret(k, m[k]);
      var i :| 0 <= i < |s| && s[i] == c;
      ToMapLastWins(s, i);
    }
    DistinctKeysCount(s);
  }

  /** With distinct keys no element occurs twice. */
  lemma {:induction false} DistinctKeysNoDuplicates(s: seq<Secret>, x: Secret)
    requires DistinctKeys(s)
    ensures multiset(s)[x] <= 1
  {
    if s != [] {
      assert s == [s[0]] + s[1..];
      DistinctKeysNoDuplicates(s[1..], x);
      if s[0] == x {
        assert x !in s[1..];
      }
    }
  }

  /** An element counted at most once is found at no other position. */
  lemma SingleOccurrence(t: seq<Secret>, i: int, j: int)
    requires 0 <= i < j < |t|
    requires multiset(t)[t[j]] <= 1
    ensures t[i] != t[j]
  {
    assert t == t[..j] + t[j..];
    assert t[i] in t[..j];
    assert t[j] == t[j..][0];
  }

  /** Rearranging a list of entries keeps it a list of the same entries. */
  lemma PermutedEntries(s: seq<Secret>, t: seq<Secret>, m: map<string, string>)
    requires EntriesOf(s, m)
    requires multiset(s) == multiset(t)
    ensures EntriesOf(t, m)
  {
    forall c | c in t ensures IsEntry(c, m) {
      assert c in multiset(s);
    }
    forall k | k in m ensures Secret(k, m[k]) in t {
      assert Secret(k, m[k]) in multiset(t);
    }
    forall i, j | 0 <= i < j < |t| ensures t[i].key != t[j].key {
      DistinctKeysNoDuplicates(s, t[j]);
      SingleOccurrence(t, i, j);
      assert t[i] in t && t[j] in t;
    }
  }

  /** `MapToList`: one secret per entry, appended in the map's (unspecified)
      iteration order, then sorted. */
  method MapToList(secretMap: map<string, string>) returns (secrets: seq<Secret>)
    ensures EntriesOf(secrets, secretMap)
    ensures Sorted(secrets)
    ensures |secrets| == |secretMap|
    ensures ToMap(secrets) == secretMap
  {
    var list: seq<Secret> := [];
    var rest := secretMap.Keys;
    while rest != {}
      invariant rest <= secretMap.Keys
      invariant DistinctKeys(list)
      invariant forall c :: c in list ==> IsEntry(c, secretMap) && c.key !in rest
      invariant forall k :: k in secretMap && k !in rest ==> Secret(k, secretMap[k]) in list
      decreases rest
    {
      var key :| key in rest;
      list := list + [Secret(key, secretMap[key])];
      rest := rest - {key};
    }
    var ss := new Secret[|list|](i requires 0 <= i < |list| => list[i]);
    assert ss[..] == list;
    Sort(ss);
    secrets := ss[..];
    PermutedEntries(list, secrets, secretMap);
    EntriesRoundTrip(secrets, secretMap);
  }

  /** Sorted lists of the entries of a map are unique: MapToList's result does
      not depend on the order in which the map was iterated. */
  lemma CanonicalUnique(r1: seq<Secret>, r2: seq<Secret>, m: map<string, string>)
    requires EntriesOf(r1, m) && Sorted(r1)
    requires EntriesOf(r2, m) && Sorted(r2)
    ensures r1 == r2
  {
    StrictlySortedFrom(r1);
    StrictlySortedFrom(r2);
    EntriesRoundTrip(r1, m);
    EntriesRoundTrip(r2, m);
    StrictlySortedUnique(r1, r2);
  }

  ghost predicate StrictlySorted(s: seq<Secret>)
  {
    forall i, j :: 0 <= i < j < |s| ==> Less(s[i], s[j])
  }

  lemma StrictlySortedFrom(s: seq<Secret>)
    requires Sorted(s) && DistinctKeys(s)
    ensures StrictlySorted(s)
  {
    forall i, j | 0 <= i < j < |s| ensures Less(s[i], s[j]) {
      LessConnected(s[i], s[j]);
    }
  }

  /** The tail of a strictly sorted list is the list without its head. */
  lemma StrictlySortedTail(a: seq<Secret>)
    requires StrictlySorted(a) && a != []
    ensures forall x :: x in a[1..] <==> x in a && x != a[0]
  {
    assert a == [a[0]] + a[1..];
    forall i | 1 <= i < |a| ensures a[i] != a[0] {
      LessIrreflexive(a[0]);
    }
  }

  lemma {:induction false} StrictlySortedUnique(a: seq<Secret>, b: seq<Secret>)
    requires StrictlySorted(a) && StrictlySorted(b) && |a| == |b|
    requires forall x :: x in a <==> x in b
    ensures a == b
    decreases |a|
  {
    if a != [] {
      assert a[0] in b;
      assert b[0] in a;
      var k :| 0 <= k < |b| && b[k] == a[0];
      var p :| 0 <= p < |a| && a[p] == b[0];
      LessAsymmetric(b[0], a[0]);
      assert a[0] == b[0];
      StrictlySortedTail(a);
      StrictlySortedTail(b);
      StrictlySortedUnique(a[1..], b[1..]);
      assert a == [a[0]] + a[1..];
      assert b == [b[0]] + b[1..];
    }
  }

  /** Converting {"b": "2", "a": "1"} gives [{a, 1}, {b, 2}] whatever the
      map's iteration order. */
  lemma MapToListExample(r: seq<Secret>)
    requires EntriesOf(r, map["b" := "2", "a" := "1"]) && Sorted(r)
    ensures r == [Secret("a", "1"), Secret("b", "2")]
  {
    var m := map["b" := "2", "a" := "1"];
    var canonical := [Secret("a", "1"), Secret("b", "2")];
    assert Less(canonical[0], canonical[1]);
    LessAsymmetric(canonical[0], canonical[1]);
    assert EntriesOf(canonical, m);
    CanonicalUnique(r, canonical, m);
  }

  // ---------------------------------------------------------------------
  // CompareList
  // ---------------------------------------------------------------------

  /** c is missing from m or carries another value there. */
  predicate DiffersIn(c: Secret, m: map<string, string>)
  {
    c.key !in m || m[c.key] != c.value
  }

  /** The elements of `list` that differ in `other`, in list order. */
  function Differing(list: seq<Secret>, other: map<string, string>): (r: seq<Secret>)
    ensures forall c :: c in r <==> c in list && DiffersIn(c, other)
    ensures |r| <= |list|
  {
    if list == [] then []
    else
      var init, c := list[..|list| - 1], list[|list| - 1];
      assert list == init + [c];
      var rest := Differing(init, other);
      if DiffersIn(c, other) then rest + [c] else rest
  }

  /** a can be obtained from b by dropping elements. */
  ghost predicate IsSubsequence<T>(a: seq<T>, b: seq<T>)
    decreases |b|
  {
    if b == [] then a == []
    else
      IsSubsequence(a, b[..|b| - 1]) ||
      (a != [] && a[|a| - 1] == b[|b| - 1] && IsSubsequence(a[..|a| - 1], b[..|b| - 1]))
  }

  lemma {:induction false} DifferingIsSubsequence(list: seq<Secret>, other: map<string, string>)
    ensures IsSubsequence(Differing(list, other), list)
  {
    if list != [] {
      var init := list[..|list| - 1];
      DifferingIsSubsequence(init, other);
      var r := Differing(list, other);
      if DiffersIn(list[|list| - 1], other) {
        assert r[..|r| - 1] == Differing(init, other);
      }
    }
  }

  /** `CompareList`: `added` holds the src entries missing from dst or
      valued differently there; `deleted` the dst entries stale relative to
      src. Both keep the order of their input. */
  method CompareList(src: seq<Secret>, dst: seq<Secret>) returns (added: seq<Secret>, deleted: seq<Secret>)
    ensures added == Differing(src, ToMap(dst))
    ensures deleted == Differing(dst, ToMap(src))
    ensures forall c :: c in added <==> c in src && DiffersIn(c, ToMap(dst))
    ensures forall c :: c in deleted <==> c in dst && DiffersIn(c, ToMap(src))
    ensures IsSubsequence(added, src) && IsSubsequence(deleted, dst)
  {
    added, deleted := [], [];
    var srcMap := ListToMap(src);
    var dstMap := ListToMap(dst);

    for i := 0 to |src|
      invariant added == Differing(src[..i], dstMap)
    {
      assert src[..i + 1][..i] == src[..i];
      var c := src[i];
      if c.key !in dstMap || dstMap[c.key] != c.value {
        added := added + [c];
      }
    }
    assert src[..|src|] == src;

    for i := 0 to |dst|
      invariant deleted == Differing(dst[..i], srcMap)
    {
      assert dst[..i + 1][..i] == dst[..i];
      var c := dst[i];
      if c.key !in srcMap || srcMap[c.key] != c.value {
        deleted := deleted + [c];
      }
    }
    assert dst[..|dst|] == dst;

    DifferingIsSubsequence(src, dstMap);
    DifferingIsSubsequence(dst, srcMap);
  }

  /** Diff by key: for a src with distinct keys, a key is in the upsert set
      exactly when src has it and dst lacks it or values it differently.
      (For the stale set, swap the roles: DiffByKey(dst, src, k).) */
  lemma DiffByKey(src: seq<Secret>, dst: seq<Secret>, k: string)
    requires DistinctKeys(src)
    ensures k in KeysOf(Differing(src, ToMap(dst))) <==>
            k in ToMap(src) && (k !in ToMap(dst) || ToMap(dst)[k] != ToMap(src)[k])
  {
    ToMapOfDistinct(src);
    if k in ToMap(src) {
      var c :| c in src && c.key == k;
      assert c in Differing(src, ToMap(dst)) <==> DiffersIn(c, ToMap(dst));
    }
  }

  /** An entry present in both distinct-key lists is in neither output. */
  lemma SharedEntryInNeither(src: seq<Secret>, dst: seq<Secret>, c: Secret)
    requires DistinctKeys(src) && DistinctKeys(dst)
    requires c in src && c in dst
    ensures c !in Differing(src, ToMap(dst))
    ensures c !in Differing(dst, ToMap(src))
  {
    ToMapOfDistinct(src);
    ToMapOfDistinct(dst);
  }

  /** Comparing a distinct-key list with itself yields two empty lists. */
  lemma CompareWithSelf(x: seq<Secret>)
    requires DistinctKeys(x)
    ensures Differing(x, ToMap(x)) == []
  {
    ToMapOfDistinct(x);
    DifferingNone(x, ToMap(x));
  }

  lemma {:induction false} DifferingNone(list: seq<Secret>, other: map<string, string>)
    requires forall c :: c in list ==> IsEntry(c, other)
    ensures Differing(list, other) == []
  {
    if list != [] {
      assert list[|list| - 1] in list;
      DifferingNone(list[..|list| - 1], other);
    }
  }

  /** Against an empty dst everything in src is upserted. */
  lemma {:induction false} DifferingFromEmpty(list: seq<Secret>)
    ensures Differing(list, map[]) == list
  {
    if list != [] {
      DifferingFromEmpty(list[..|list| - 1]);
    }
  }

  /** src = [{a,1},{b,2}], dst = [{a,1},{c,3}]: added = [{b,2}], deleted = [{c,3}]. */
  lemma CompareListExample()
    ensures Differing([Secret("a", "1"), Secret("b", "2")], ToMap([Secret("a", "1"), Secret("c", "3")])) == [Secret("b", "2")]
    ensures Differing([Secret("a", "1"), Secret("c", "3")], ToMap([Secret("a", "1"), Secret("b", "2")])) == [Secret("c", "3")]
  {
  }
}
