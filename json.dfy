/**
 * The parsed JSON document (what `JObject.Parse` yields and what
 * `JsonConvert.SerializeObject` consumes), and the ordered dictionaries
 * (`Dictionary<string, object>` filled in insertion order) that the
 * exporter builds before serialising them.
 */
module Json {
  import opened Wrappers

  /** A JSON value; an object keeps its members in document order. */
  datatype Json =
    | JNull
    | JBool(b: bool)
    | JNum(n: real)
    | JStr(s: string)
    | JArr(items: seq<Json>)
    | JObj(fields: seq<(string, Json)>)

  /**
   * The exceptions the import can raise: a token of the wrong kind for its
   * conversion, a member read through a missing token, an array index past
   * the end, an enumeration name `Enum.Parse` does not know, a collider
   * class name `Type.GetType` does not find, a file that cannot be read
   * or parsed.
   */
  datatype Failure =
    | InvalidCast
    | NullReference
    | IndexOutOfRange
    | UnknownEnumMember
    | UnknownType
    | Unreadable

  /** An ordered dictionary: its entries in insertion order. */
  type Dict<V> = seq<(string, V)>

  predicate HasKey<V>(d: Dict<V>, k: string) {
    exists i :: 0 <= i < |d| && d[i].0 == k
  }

  /** No key occurs twice (true of every `Dictionary` and every `JObject`). */
  predicate UniqueKeys<V>(d: Dict<V>) {
    forall i, j :: 0 <= i < j < |d| ==> d[i].0 != d[j].0
  }

  /** The keys of `d`, in order. */
  function Keys<V>(d: Dict<V>): (ks: seq<string>)
    ensures |ks| == |d|
    ensures forall i :: 0 <= i < |d| ==> ks[i] == d[i].0
    ensures forall k :: k in ks <==> HasKey(d, k)
  {
    seq(|d|, i requires 0 <= i < |d| => d[i].0)
  }

  lemma HasKeyAppend<V>(a: Dict<V>, b: Dict<V>, k: string)
    ensures HasKey(a + b, k) <==> HasKey(a, k) || HasKey(b, k)
  {
    if HasKey(a + b, k) {
      var i :| 0 <= i < |a + b| && (a + b)[i].0 == k;
      if i >= |a| { assert b[i - |a|].0 == k; }
    }
    if HasKey(b, k) {
      var i :| 0 <= i < |b| && b[i].0 == k;
      assert (a + b)[|a| + i] == b[i];
    }
    if HasKey(a, k) {
      var i :| 0 <= i < |a| && a[i].0 == k;
      assert (a + b)[i] == a[i];
    }
  }

  /** Distinct keys are exactly a key list without repetitions. */
  lemma UniqueKeysByKeys<V>(d: Dict<V>)
    requires forall i, j :: 0 <= i < j < |Keys(d)| ==> Keys(d)[i] != Keys(d)[j]
    ensures UniqueKeys(d)
  {
    forall i, j | 0 <= i < j < |d| ensures d[i].0 != d[j].0 {
      assert Keys(d)[i] == d[i].0 && Keys(d)[j] == d[j].0;
    }
  }

  /** Position of the first entry with key `k`, or `|d|` when there is none. */
  function IndexOf<V>(d: Dict<V>, k: string): (i: nat)
    ensures i <= |d|
    ensures i < |d| ==> d[i].0 == k
    ensures forall j :: 0 <= j < i ==> d[j].0 != k
    ensures i < |d| <==> HasKey(d, k)
  {
    if d == [] then 0
    else if d[0].0 == k then 0
    else 1 + IndexOf(d[1..], k)
  }

  /** The dictionary or `JObject` indexer: the value under `k`, or null. */
  function Get<V>(d: Dict<V>, k: string): (r: Option<V>)
    ensures r.Some? <==> HasKey(d, k)
    ensures UniqueKeys(d) ==> forall i :: 0 <= i < |d| && d[i].0 == k ==> r == Some(d[i].1)
  {
    var i := IndexOf(d, k);
    if i < |d| then Some(d[i].1) else None
  }

  /**
   * The dictionary setter `d[k] = v`: overwrites the value of an existing
   * key where it stands, or appends a new entry at the end.
   */
  function Put<V>(d: Dict<V>, k: string, v: V): Dict<V> {
    var i := IndexOf(d, k);
    if i < |d| then d[i := (k, v)] else d + [(k, v)]
  }

  /**
   * The setter keeps every key in place, changes only the entry of `k`, adds
   * `k` at the end when it is new, and never introduces a second entry for
   * a key.
   */
  lemma {:induction false} PutShape<V>(d: Dict<V>, k: string, v: V)
    ensures |Put(d, k, v)| == if HasKey(d, k) then |d| else |d| + 1
    ensures forall i :: 0 <= i < |d| ==> Put(d, k, v)[i].0 == d[i].0
    ensures forall i :: 0 <= i < |d| && d[i].0 != k ==> Put(d, k, v)[i] == d[i]
    ensures !HasKey(d, k) ==> Put(d, k, v) == d + [(k, v)]
    ensures forall k' :: HasKey(Put(d, k, v), k') <==> HasKey(d, k') || k' == k
    ensures UniqueKeys(d) ==> UniqueKeys(Put(d, k, v))
  {
    var r := Put(d, k, v);
    var i := IndexOf(d, k);
    forall k' ensures HasKey(r, k') <==> HasKey(d, k') || k' == k {
      if i < |d| {
        if HasKey(d, k') { var j :| 0 <= j < |d| && d[j].0 == k'; assert r[j].0 == k'; }
        if k' == k { assert r[i].0 == k; }
        if HasKey(r, k') { var j :| 0 <= j < |r| && r[j].0 == k'; assert d[j].0 == k'; }
      } else {
        HasKeyAppend(d, [(k, v)], k');
        if k' == k { assert [(k, v)][0].0 == k'; }
      }
    }
  }

  /** After `d[k] = v`, reading `k` gives `v` and reading any other key is unaffected. */
  lemma {:induction false} PutGet<V>(d: Dict<V>, k: string, v: V)
    ensures Get(Put(d, k, v), k) == Some(v)
    ensures forall k' :: k' != k ==> Get(Put(d, k, v), k') == Get(d, k')
  {
    var r := Put(d, k, v);
    var i := IndexOf(d, k);
    PutShape(d, k, v);
    assert r[i] == (k, v);
    assert IndexOf(r, k) == i;
    forall k' | k' != k ensures Get(r, k') == Get(d, k') {
      var j := IndexOf(d, k');
      if j < |d| {
        assert r[j] == d[j];
        assert IndexOf(r, k') == j;
      } else {
        assert !HasKey(r, k');
      }
    }
  }

  /** `PutShape` and `PutGet` for one key `k'`. */
  lemma PutAt<V>(d: Dict<V>, k: string, v: V, k': string)
    ensures HasKey(Put(d, k, v), k') <==> HasKey(d, k') || k' == k
    ensures Get(Put(d, k, v), k') == if k' == k then Some(v) else Get(d, k')
    ensures UniqueKeys(d) ==> UniqueKeys(Put(d, k, v))
  {
    PutShape(d, k, v);
    PutGet(d, k, v);
  }

  /** Setting a new key appends it. */
  lemma PutNew<V>(d: Dict<V>, k: string, v: V)
    requires !HasKey(d, k)
    ensures Put(d, k, v) == d + [(k, v)]
  {
  }
}
