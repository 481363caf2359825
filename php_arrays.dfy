/** PHP's ordered array with string keys, as the harness uses it for header
    lists: a sequence of entries in insertion order, where assigning to an
    existing key replaces its value in place and assigning to a new key
    appends it. */
module PhpArrays {
  import opened Wrappers

  datatype Entry = Entry(key: string, value: string)

  type PhpArray = seq<Entry>

  /** No key appears twice; every array PHP builds by assignment has this shape. */
  predicate UniqueKeys(a: PhpArray) {
    forall i, j :: 0 <= i < j < |a| ==> a[i].key != a[j].key
  }

  /** The position of the first entry with key `k`. */
  function IndexOfKey(a: PhpArray, k: string, from: nat := 0): (r: Option<nat>)
    decreases |a| - from
    ensures r.Some? ==> from <= r.value < |a| && a[r.value].key == k
    ensures r.Some? ==> forall j :: from <= j < r.value ==> a[j].key != k
    ensures r.None? ==> forall j :: from <= j < |a| ==> a[j].key != k
  {
    if from >= |a| then None
    else if a[from].key == k then Some(from)
    else IndexOfKey(a, k, from + 1)
  }

  /** The first position carrying `k` is determined by its two defining facts. */
  lemma IndexOfKeyIs(a: PhpArray, k: string, i: nat)
    requires i < |a| && a[i].key == k
    requires forall j :: 0 <= j < i ==> a[j].key != k
    ensures IndexOfKey(a, k) == Some(i)
  {
  }

  /** `$a[$k] ?? null`: the value stored under `k`, if any. */
  function Get(a: PhpArray, k: string): Option<string> {
    match IndexOfKey(a, k)
    case None => None
    case Some(i) => Some(a[i].value)
  }

  /** Get finds a key exactly when some entry carries it, and then returns
      the value of an entry carrying it. */
  lemma GetSome(a: PhpArray, k: string)
    ensures Get(a, k).Some? <==> exists j :: 0 <= j < |a| && a[j].key == k
    ensures Get(a, k).Some? ==> Entry(k, Get(a, k).value) in a
  {
    if Get(a, k).Some? {
      var i := IndexOfKey(a, k).value;
      assert a[i].key == k;
      assert a[i] == Entry(k, Get(a, k).value);
    }
  }

  /** In an array without repeated keys, Get returns the value of the entry carrying the key. */
  lemma GetUnique(a: PhpArray, j: nat)
    requires UniqueKeys(a) && j < |a|
    ensures Get(a, a[j].key) == Some(a[j].value)
  {
    var i := IndexOfKey(a, a[j].key).value;
    assert i == j;
  }

  /** Arrays with the same key at every position find every key at the same position. */
  lemma {:induction false} SameKeysSameIndex(a: PhpArray, b: PhpArray, k: string, from: nat)
    requires |a| == |b| && forall j :: 0 <= j < |a| ==> a[j].key == b[j].key
    ensures IndexOfKey(a, k, from) == IndexOfKey(b, k, from)
    decreases |a| - from
  {
    if from < |a| && a[from].key != k {
      SameKeysSameIndex(a, b, k, from + 1);
    }
  }

  /** Appending an entry does not change where earlier keys are found. */
  lemma {:induction false} AppendKeepsIndex(a: PhpArray, e: Entry, k: string, from: nat)
    requires k != e.key
    ensures IndexOfKey(a + [e], k, from) == IndexOfKey(a, k, from)
    decreases |a| + 1 - from
  {
    if from < |a| && a[from].key != k {
      AppendKeepsIndex(a, e, k, from + 1);
    }
  }

  /** `$a[$k] = $v`: afterwards `k` holds `v`, every other key holds what it
      held, an existing key keeps its position and a new key goes last. */
  function Put(a: PhpArray, k: string, v: string): (r: PhpArray)
    ensures Get(r, k) == Some(v)
    ensures forall k' :: k' != k ==> Get(r, k') == Get(a, k')
  {
    match IndexOfKey(a, k)
    case Some(i) =>
      var r := a[i := Entry(k, v)];
      SameKeysSameIndex(a, r, k, 0);
      forall k' | k' != k ensures Get(r, k') == Get(a, k') {
        SameKeysSameIndex(a, r, k', 0);
      }
      r
    case None =>
      var r := a + [Entry(k, v)];
      IndexOfKeyIs(r, k, |a|);
      forall k' | k' != k ensures Get(r, k') == Get(a, k') {
        AppendKeepsIndex(a, Entry(k, v), k', 0);
      }
      r
  }

  /** Where the assignment goes: an existing key keeps its position (and every
      other key its own), a new key is appended. */
  lemma PutPlacement(a: PhpArray, k: string, v: string)
    ensures var r := Put(a, k, v);
      && (Get(a, k).Some? ==> |r| == |a| && forall j :: 0 <= j < |a| ==> r[j].key == a[j].key)
      && (Get(a, k).None? ==> r == a + [Entry(k, v)])
  {
  }

  /** Every entry after the assignment is the assigned one or the entry that
      was at that position before. */
  lemma PutStores(a: PhpArray, k: string, v: string)
    ensures var r := Put(a, k, v);
      forall j :: 0 <= j < |r| ==> r[j] == Entry(k, v) || (j < |a| && r[j] == a[j])
  {
  }

  /** Assignment never creates a repeated key. */
  lemma PutKeepsUnique(a: PhpArray, k: string, v: string)
    requires UniqueKeys(a)
    ensures UniqueKeys(Put(a, k, v))
  {
    var r := Put(a, k, v);
    match IndexOfKey(a, k)
    case Some(i) =>
      PutPlacement(a, k, v);
    case None =>
      assert r == a + [Entry(k, v)];
  }

  /** Assigning the entries `es` one after the other, as a foreach loop does:
      no entry is ever removed, and each assignment adds at most one. */
  function PutAll(a: PhpArray, es: seq<Entry>): (r: PhpArray)
    decreases |es|
  {
    if |es| == 0 then a
    else Put(PutAll(a, es[..|es| - 1]), es[|es| - 1].key, es[|es| - 1].value)
  }

  /** Assignment only stores what it is given: every entry afterwards was in
      `a` or is one of `es`. */
  lemma {:induction false} PutAllFrom(a: PhpArray, es: seq<Entry>)
    ensures forall j :: 0 <= j < |PutAll(a, es)| ==> PutAll(a, es)[j] in a || PutAll(a, es)[j] in es
    decreases |es|
  {
    if |es| > 0 {
      var n := |es| - 1;
      PutAllFrom(a, es[..n]);
      PutStores(PutAll(a, es[..n]), es[n].key, es[n].value);
      assert Entry(es[n].key, es[n].value) == es[n];
      assert forall e :: e in es[..n] ==> e in es;
    }
  }

  /** One assignment more. */
  lemma PutAllNext(a: PhpArray, es: seq<Entry>, i: nat)
    requires i < |es|
    ensures PutAll(a, es[..i + 1]) == Put(PutAll(a, es[..i]), es[i].key, es[i].value)
  {
    assert es[..i + 1][..i] == es[..i];
  }

  /** One assignment more, at the end. */
  lemma PutAllSnoc(a: PhpArray, es: seq<Entry>, e: Entry)
    ensures PutAll(a, es + [e]) == Put(PutAll(a, es), e.key, e.value)
  {
    assert (es + [e])[..|es|] == es;
  }

  /** After a sequence of assignments a key holds the value of the last one to it. */
  lemma {:induction false} PutAllLastWins(a: PhpArray, es: seq<Entry>, j: nat)
    requires j < |es|
    requires forall j' :: j < j' < |es| ==> es[j'].key != es[j].key
    ensures Get(PutAll(a, es), es[j].key) == Some(es[j].value)
    decreases |es|
  {
    var n := |es| - 1;
    if j < n {
      var init := es[..n];
      assert init[j] == es[j];
      forall j' | j < j' < n ensures init[j'].key != init[j].key {
        assert init[j'] == es[j'];
      }
      PutAllLastWins(a, init, j);
      assert es[n].key != es[j].key;
    }
  }

  /** Every assigned key is present afterwards. */
  lemma {:induction false} PutAllDefines(a: PhpArray, es: seq<Entry>, j: nat)
    requires j < |es|
    ensures Get(PutAll(a, es), es[j].key).Some?
    decreases |es|
  {
    var n := |es| - 1;
    if j < n {
      assert es[..n][j] == es[j];
      PutAllDefines(a, es[..n], j);
    }
  }

  /** A key no assignment touches keeps the value it had. */
  lemma {:induction false} PutAllUntouched(a: PhpArray, es: seq<Entry>, k: string)
    requires forall j :: 0 <= j < |es| ==> es[j].key != k
    ensures Get(PutAll(a, es), k) == Get(a, k)
    decreases |es|
  {
    if |es| > 0 {
      PutAllUntouched(a, es[..|es| - 1], k);
    }
  }

  /** A property every entry of `a` and every assigned entry has holds of
      every entry afterwards: assignment only stores what it is given. */
  lemma {:induction false} PutAllKeeps(a: PhpArray, es: seq<Entry>, P: Entry -> bool)
    requires forall j :: 0 <= j < |a| ==> P(a[j])
    requires forall j :: 0 <= j < |es| ==> P(es[j])
    ensures forall j :: 0 <= j < |PutAll(a, es)| ==> P(PutAll(a, es)[j])
    decreases |es|
  {
    if |es| > 0 {
      var n := |es| - 1;
      assert forall j :: 0 <= j < n ==> es[..n][j] == es[j];
      PutAllKeeps(a, es[..n], P);
      PutStores(PutAll(a, es[..n]), es[n].key, es[n].value);
      assert Entry(es[n].key, es[n].value) == es[n];
    }
  }

  /** Assignment never creates a repeated key. */
  lemma {:induction false} PutAllUnique(a: PhpArray, es: seq<Entry>)
    requires UniqueKeys(a)
    ensures UniqueKeys(PutAll(a, es))
    decreases |es|
  {
    if |es| > 0 {
      var n := |es| - 1;
      PutAllUnique(a, es[..n]);
      PutKeepsUnique(PutAll(a, es[..n]), es[n].key, es[n].value);
    }
  }

  /** Assigning distinct keys to an empty array rebuilds exactly that list, in order. */
  lemma {:induction false} PutAllDistinct(es: seq<Entry>)
    requires UniqueKeys(es)
    ensures PutAll([], es) == es
    decreases |es|
  {
    if |es| > 0 {
      var n := |es| - 1;
      var init := es[..n];
      PutAllDistinct(init);
      forall j | 0 <= j < n ensures init[j].key != es[n].key { }
      assert IndexOfKey(init, es[n].key).None?;
      PutPlacement(init, es[n].key, es[n].value);
      assert init + [es[n]] == es;
    }
  }
}
