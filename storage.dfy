/** The browser's `localStorage`: a flat string-to-string store whose keys
    are enumerated in insertion order (`length` and `key(i)`). */
module KeyValue {
  import opened Wrappers

  predicate Distinct(keys: seq<string>) {
    forall i, j :: 0 <= i < j < |keys| ==> keys[i] != keys[j]
  }

  /** The stored items and the order in which `key(i)` enumerates them. */
  datatype Store = Store(items: map<string, string>, keys: seq<string>) {
    /** Every item is enumerated exactly once. */
    ghost predicate Valid() {
      Distinct(keys) && forall k :: k in items <==> k in keys
    }
  }

  /** `getItem`: the stored value, absent (`null`) when there is none. */
  function Get(st: Store, key: string): Option<string> {
    if key in st.items then Some(st.items[key]) else None
  }

  /** `setItem`: a new key is enumerated last; overwriting keeps its place. */
  function Put(st: Store, key: string, value: string): (r: Store)
    ensures st.Valid() ==> r.Valid()
    ensures Get(r, key) == Some(value)
    ensures forall k :: k != key ==> Get(r, k) == Get(st, k)
  {
    Store(st.items[key := value], if key in st.items then st.keys else st.keys + [key])
  }

  /** The enumeration with `key` taken out. */
  function Without(keys: seq<string>, key: string): (r: seq<string>)
    ensures forall k :: k in r <==> k in keys && k != key
    ensures Distinct(keys) ==> Distinct(r)
  {
    if keys == [] then []
    else
      var rest := Without(keys[1..], key);
      assert Distinct(keys) ==> Distinct(keys[1..]) && keys[0] !in rest;
      if keys[0] == key then rest else [keys[0]] + rest
  }

  /** Removing a key that sits at position `j` closes the gap and keeps the
      order of every other key. */
  lemma {:induction false} WithoutAt(keys: seq<string>, j: nat)
    requires Distinct(keys) && j < |keys|
    ensures Without(keys, keys[j]) == keys[..j] + keys[j + 1..]
  {
    if j == 0 {
      assert keys[j] !in keys[1..];
      WithoutAbsent(keys[1..], keys[j]);
    } else {
      assert keys[1..][j - 1] == keys[j];
      WithoutAt(keys[1..], j - 1);
      assert keys[..j] == [keys[0]] + keys[1..][..j - 1];
      assert keys[j + 1..] == keys[1..][j..];
    }
  }

  lemma {:induction false} WithoutAbsent(keys: seq<string>, key: string)
    requires key !in keys
    ensures Without(keys, key) == keys
  {
    if keys != [] {
      WithoutAbsent(keys[1..], key);
      assert keys == [keys[0]] + keys[1..];
    }
  }

  /** `removeItem`: no error when the key is absent. */
  function Remove(st: Store, key: string): (r: Store)
    ensures st.Valid() ==> r.Valid()
    ensures Get(r, key) == None
    ensures forall k :: k != key ==> Get(r, k) == Get(st, k)
  {
    Store(st.items - {key}, Without(st.keys, key))
  }

  /** The store object the program shares; every `fs` function reads and
      writes it. */
  class LocalStorage {
    var items: map<string, string>
    var keys: seq<string>

    function State(): Store
      reads this
    {
      Store(items, keys)
    }

    ghost predicate Valid()
      reads this
    {
      State().Valid()
    }

    /** The store as persisted by earlier sessions. */
    constructor (persisted: Store)
      requires persisted.Valid()
      ensures Valid() && State() == persisted
    {
      items := persisted.items;
      keys := persisted.keys;
    }

    /** `localStorage.length` */
    function Length(): nat
      reads this
    {
      |keys|
    }

    /** `localStorage.key(i)`: `null` past the end. */
    function Key(i: nat): Option<string>
      reads this
    {
      if i < |keys| then Some(keys[i]) else None
    }

    /** `localStorage.getItem(key)` */
    function GetItem(key: string): Option<string>
      reads this
    {
      Get(State(), key)
    }

    /** `localStorage.setItem(key, value)` */
    method SetItem(key: string, value: string)
      requires Valid()
      modifies this
      ensures Valid()
      ensures State() == Put(old(State()), key, value)
    {
      if key !in items {
        keys := keys + [key];
      }
      items := items[key := value];
    }

    /** `localStorage.removeItem(key)` */
    method RemoveItem(key: string)
      requires Valid()
      modifies this
      ensures Valid()
      ensures State() == Remove(old(State()), key)
    {
      items := items - {key};
      keys := Without(keys, key);
    }
  }
}
