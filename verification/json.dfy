/**
 * JSON values as produced by `JSON.parse`, with object members kept as an
 * ordered list so that JavaScript's `for...in` enumeration order is explicit.
 */
module Json {
  import opened Wrappers
  import opened Strings

  datatype Json =
    | JNull
    | JBool(b: bool)
    | JNum(n: real)
    | JStr(s: string)
    | JArr(items: seq<Json>)
    | JObj(fields: Fields)

  /** One own enumerable property of an object. */
  datatype Member = Member(key: string, value: Json)

  /** The own enumerable properties of an object, in enumeration order. */
  type Fields = seq<Member>

  /** JavaScript truthiness of a JSON value (JSON has no NaN). */
  predicate Truthy(j: Json) {
    match j
    case JNull => false
    case JBool(b) => b
    case JNum(n) => n != 0.0
    case JStr(s) => s != ""
    case _ => true
  }

  /** The member names of an object. */
  function Keys(fs: Fields): set<string> {
    set i | 0 <= i < |fs| :: fs[i].key
  }

  /** The member names of an object, in enumeration order. */
  function KeyList(fs: Fields): (ks: seq<string>)
    ensures |ks| == |fs|
  {
    seq(|fs|, i requires 0 <= i < |fs| => fs[i].key)
  }

  /** A JavaScript object never has two members with the same name. */
  predicate DistinctKeys(fs: Fields) {
    forall i, j :: 0 <= i < j < |fs| ==> fs[i].key != fs[j].key
  }

  lemma KeysTail(fs: Fields)
    requires fs != []
    ensures Keys(fs) == {fs[0].key} + Keys(fs[1..])
  {
    KeysCons(fs[0], fs[1..]);
    assert [fs[0]] + fs[1..] == fs;
  }

  /** Removing the first member keeps the names distinct and frees the first name. */
  lemma DistinctTail(fs: Fields)
    requires DistinctKeys(fs) && fs != []
    ensures DistinctKeys(fs[1..])
    ensures fs[0].key !in Keys(fs[1..])
  {
  }

  /** `obj[k]` for an own member: the value of the first member named `k`. */
  function Get(fs: Fields, k: string): (r: Option<Json>)
    ensures r.Some? <==> k in Keys(fs)
    ensures r.Some? ==> Member(k, r.value) in fs
  {
    if fs == [] then None
    else if fs[0].key == k then Some(fs[0].value)
    else
      assert forall i :: 1 <= i < |fs| ==> fs[i].key == fs[1..][i - 1].key;
      Get(fs[1..], k)
  }

  /** In an object with distinct names, `Get` finds the member at any position. */
  lemma GetAt(fs: Fields, i: int)
    requires DistinctKeys(fs) && 0 <= i < |fs|
    ensures Get(fs, fs[i].key) == Some(fs[i].value)
  {
    if i > 0 {
      GetAt(fs[1..], i - 1);
    }
  }

  /**
   * `obj[k] = v`: an existing member keeps its place and takes the new value;
   * a new member is appended at the end of the enumeration order.
   */
  function Put(fs: Fields, k: string, v: Json): (r: Fields)
    ensures Keys(r) == Keys(fs) + {k}
    ensures k !in Keys(fs) ==> r == fs + [Member(k, v)]
  {
    if fs == [] then
      KeysCons(Member(k, v), []);
      assert [Member(k, v)] + [] == [Member(k, v)];
      [Member(k, v)]
    else if fs[0].key == k then
      KeysCons(fs[0], fs[1..]);
      KeysCons(Member(k, v), fs[1..]);
      [Member(k, v)] + fs[1..]
    else
      var rest := Put(fs[1..], k, v);
      KeysCons(fs[0], fs[1..]);
      KeysCons(fs[0], rest);
      assert k !in Keys(fs) ==> [fs[0]] + rest == fs + [Member(k, v)];
      [fs[0]] + rest
  }

  /** Reading after `obj[k] = v` gives `v` at `k` and the old value elsewhere. */
  lemma {:induction false} PutGet(fs: Fields, k: string, v: Json, k': string)
    ensures Get(Put(fs, k, v), k') == if k' == k then Some(v) else Get(fs, k')
  {
    if fs != [] && fs[0].key != k {
      PutGet(fs[1..], k, v, k');
      assert ([fs[0]] + Put(fs[1..], k, v))[1..] == Put(fs[1..], k, v);
    } else if fs != [] {
      assert ([Member(k, v)] + fs[1..])[1..] == fs[1..];
    }
  }

  /** Assigning an existing member keeps the enumeration order of the names. */
  lemma PutKeyList(fs: Fields, k: string, v: Json)
    requires k in Keys(fs)
    ensures KeyList(Put(fs, k, v)) == KeyList(fs)
  {
    if fs[0].key != k {
      KeysCons(fs[0], fs[1..]);
      PutKeyList(fs[1..], k, v);
      assert KeyList([fs[0]] + Put(fs[1..], k, v)) == [fs[0].key] + KeyList(Put(fs[1..], k, v));
      assert KeyList(fs) == [fs[0].key] + KeyList(fs[1..]);
    } else {
      assert KeyList([Member(k, v)] + fs[1..]) == KeyList(fs);
    }
  }

  /** Assignment never creates a second member with the same name. */
  lemma PutDistinct(fs: Fields, k: string, v: Json)
    requires DistinctKeys(fs)
    ensures DistinctKeys(Put(fs, k, v))
  {
    if k in Keys(fs) {
      PutKeyList(fs, k, v);
      var r := Put(fs, k, v);
      forall i, j | 0 <= i < j < |r|
        ensures r[i].key != r[j].key
      {
        assert KeyList(r)[i] == KeyList(fs)[i] && KeyList(r)[j] == KeyList(fs)[j];
      }
    }
  }

  lemma KeysCons(x: Member, fs: Fields)
    ensures Keys([x] + fs) == {x.key} + Keys(fs)
  {
    var r := [x] + fs;
    forall k | k in Keys(r)
      ensures k in {x.key} + Keys(fs)
    {
      var i :| 0 <= i < |r| && r[i].key == k;
      if i > 0 {
        assert fs[i - 1].key == k;
      }
    }
    forall k | k in Keys(fs)
      ensures k in Keys(r)
    {
      var i :| 0 <= i < |fs| && fs[i].key == k;
      assert r[i + 1].key == k;
    }
    assert r[0].key == x.key;
  }

  /** `for (const key in j)`: the enumerable own properties of any JSON value. */
  function ForInEntries(j: Json): Fields {
    match j
    case JObj(fs) => fs
    case JArr(items) => IndexEntries(items, 0)
    case JStr(s) => CharEntries(s, 0)
    case _ => []
  }

  /** Array elements keyed by their decimal index, starting at `base`. */
  function IndexEntries(items: seq<Json>, base: nat): (r: Fields)
    ensures |r| == |items|
  {
    if items == [] then [] else [Member(DecimalString(base), items[0])] + IndexEntries(items[1..], base + 1)
  }

  /** Characters of a string primitive keyed by their decimal index, starting at `base`. */
  function CharEntries(s: string, base: nat): (r: Fields)
    ensures |r| == |s|
    ensures forall i :: 0 <= i < |r| ==> r[i].value == JStr([s[i]])
  {
    if s == [] then [] else [Member(DecimalString(base), JStr([s[0]]))] + CharEntries(s[1..], base + 1)
  }

  /** A size measure for recursion through nested objects and arrays. */
  function Size(j: Json): (n: nat)
    ensures n >= 1
  {
    match j
    case JObj(fs) => 1 + FieldsSize(fs)
    case JArr(items) => 1 + ItemsSize(items)
    case _ => 1
  }

  function FieldsSize(fs: Fields): nat
    decreases fs
  {
    if fs == [] then 0
    else Size(fs[0].value) + FieldsSize(fs[1..])
  }

  function ItemsSize(items: seq<Json>): nat {
    if items == [] then 0 else Size(items[0]) + ItemsSize(items[1..])
  }

  lemma IndexEntriesSize(items: seq<Json>, base: nat)
    ensures FieldsSize(IndexEntries(items, base)) == ItemsSize(items)
  {
    if items != [] {
      var r := IndexEntries(items, base);
      assert r[1..] == IndexEntries(items[1..], base + 1);
    }
  }

  /** The members `for...in` enumerates in an object or array are, together, smaller than it. */
  lemma EntriesSmaller(j: Json)
    requires j.JObj? || j.JArr?
    ensures FieldsSize(ForInEntries(j)) < Size(j)
  {
    if j.JArr? {
      IndexEntriesSize(j.items, 0);
    }
  }

  /** The first member's value is part of the members' size. */
  lemma FieldsSizeSplit(fs: Fields)
    requires fs != []
    ensures FieldsSize(fs) == Size(fs[0].value) + FieldsSize(fs[1..])
  {
  }
}
