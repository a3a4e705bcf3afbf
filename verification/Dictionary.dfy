/** The open-slot dictionary of the ini parser (UVNCRepeater/iniparser.cpp).

    Three arrays hold keys, values and hashes; a slot without a key is free.  The
    hash function is a parameter.  NULL is None. */
module Dictionaries {

  import opened Options

  const DICTMINSZ := 128

  type Keys = seq<Option<string>>
  type Values = seq<Option<string>>

  // ---------- Slots ----------

  ghost predicate Unique(keys: Keys) {
    forall i, j :: 0 <= i < j < |keys| && keys[i].Some? ==> keys[i] != keys[j]
  }

  function Used(keys: Keys): set<string> {
    set i | 0 <= i < |keys| && keys[i].Some? :: keys[i].value
  }

  ghost predicate Holds(keys: Keys, i: int, key: string) {
    0 <= i < |keys| && keys[i] == Some(key)
  }

  ghost function SlotOf(keys: Keys, key: string): (i: nat)
    requires key in Used(keys)
    ensures Holds(keys, i, key)
  {
    var i: int :| 0 <= i < |keys| && keys[i].Some? && keys[i].value == key;
    i
  }

  /** The map that the arrays stand for. */
  ghost function Contents(keys: Keys, vals: Values): (m: map<string, Option<string>>)
    requires |keys| == |vals|
    ensures m.Keys == Used(keys)
  {
    map key | key in Used(keys) :: vals[SlotOf(keys, key)]
  }

  lemma SlotIs(keys: Keys, vals: Values, i: nat)
    requires |keys| == |vals| && Unique(keys) && i < |keys| && keys[i].Some?
    ensures keys[i].value in Used(keys) && SlotOf(keys, keys[i].value) == i
    ensures Contents(keys, vals)[keys[i].value] == vals[i]
  {
    assert keys[i].value in Used(keys);
    assert Holds(keys, SlotOf(keys, keys[i].value), keys[i].value);
  }

  lemma UsedByNobody(keys: Keys, key: string)
    requires forall i :: 0 <= i < |keys| ==> keys[i] != Some(key)
    ensures key !in Used(keys)
  {
  }

  /** One slot gets another key and value. */
  lemma SlotReplaced(keys: Keys, vals: Values, i: nat, k: Option<string>, v: Option<string>)
    requires |keys| == |vals| && Unique(keys) && i < |keys|
    requires k.Some? ==> k == keys[i] || k.value !in Used(keys)
    ensures Unique(keys[i := k])
    ensures Contents(keys[i := k], vals[i := v]) ==
            var m := if keys[i].Some? then Contents(keys, vals) - {keys[i].value} else Contents(keys, vals);
            if k.Some? then m[k.value := v] else m
  {
    var keys', vals' := keys[i := k], vals[i := v];
    UniqueAfter(keys, i, k);
    hide Contents, Unique, Used;
    forall key
      ensures key in Contents(keys', vals') <==> k == Some(key) || (key in Contents(keys, vals) && keys[i] != Some(key))
      ensures key in Contents(keys', vals') ==>
                Contents(keys', vals')[key] == if k == Some(key) then v else Contents(keys, vals)[key]
    {
      KeyAfter(keys, vals, i, k, v, key);
    }
  }

  lemma UniqueAfter(keys: Keys, i: nat, k: Option<string>)
    requires Unique(keys) && i < |keys| && (k.Some? ==> k == keys[i] || k.value !in Used(keys))
    ensures Unique(keys[i := k])
  {
  }

  lemma KeyAfter(keys: Keys, vals: Values, i: nat, k: Option<string>, v: Option<string>, key: string)
    requires |keys| == |vals| && Unique(keys) && i < |keys| && Unique(keys[i := k])
    ensures key in Contents(keys[i := k], vals[i := v]) <==>
            k == Some(key) || (key in Contents(keys, vals) && keys[i] != Some(key))
    ensures key in Contents(keys[i := k], vals[i := v]) ==>
              Contents(keys[i := k], vals[i := v])[key] == if k == Some(key) then v else Contents(keys, vals)[key]
  {
    hide Unique;
    var keys', vals' := keys[i := k], vals[i := v];
    if key in Used(keys') {
      var j := SlotOf(keys', key);
      SlotIs(keys', vals', j);
      if j != i {
        SlotIs(keys, vals, j);
      }
    }
    if key in Used(keys) {
      var j := SlotOf(keys, key);
      SlotIs(keys, vals, j);
      if j != i {
        SlotIs(keys', vals', j);
      }
    }
    if k == Some(key) {
      SlotIs(keys', vals', i);
    }
    if keys[i] == Some(key) {
      SlotIs(keys, vals, i);
    }
  }

  /** Doubling adds free slots only. */
  lemma GrownContents(keys: Keys, vals: Values, more: nat)
    requires |keys| == |vals| && Unique(keys)
    ensures var keys', vals' := keys + seq(more, _ => None), vals + seq(more, _ => None);
            && Unique(keys') && UsedSlots(keys') == UsedSlots(keys) && Contents(keys', vals') == Contents(keys, vals)
  {
    var keys', vals' := keys + seq(more, _ => None), vals + seq(more, _ => None);
    assert Unique(keys');
    UsedSlotsOfNone(keys, more);
    hide Contents, Unique, UsedSlots;
    forall key
      ensures key in Contents(keys', vals') <==> key in Contents(keys, vals)
      ensures key in Contents(keys', vals') ==> Contents(keys', vals')[key] == Contents(keys, vals)[key]
    {
      if key in Used(keys') {
        var j := SlotOf(keys', key);
        SlotIs(keys', vals', j);
        SlotIs(keys, vals, j);
      }
      if key in Used(keys) {
        var j := SlotOf(keys, key);
        assert keys'[j] == keys[j];
        SlotIs(keys', vals', j);
      }
    }
  }

  // ---------- Counting ----------

  function UsedSlots(keys: Keys): nat {
    if keys == [] then 0 else UsedSlots(keys[..|keys| - 1]) + if keys[|keys| - 1].Some? then 1 else 0
  }

  lemma {:induction false} UsedSlotsOfNone(keys: Keys, more: nat)
    ensures UsedSlots(keys + seq(more, _ => None)) == UsedSlots(keys)
  {
    var keys' := keys + seq(more, _ => None);
    if more == 0 {
      assert keys' == keys;
    } else {
      UsedSlotsOfNone(keys, more - 1);
      assert keys'[..|keys'| - 1] == keys + seq(more - 1, _ => None);
    }
  }

  lemma {:induction false} UsedSlotsAfter(keys: Keys, i: nat, k: Option<string>)
    requires i < |keys|
    ensures UsedSlots(keys[i := k]) ==
            UsedSlots(keys) + (if k.Some? then 1 else 0) - (if keys[i].Some? then 1 else 0)
  {
    var n := |keys| - 1;
    if i == n {
      assert keys[i := k][..n] == keys[..n];
    } else {
      UsedSlotsAfter(keys[..n], i, k);
      assert keys[i := k][..n] == keys[..n][i := k];
    }
  }

  /** The slots are full exactly when none is free. */
  lemma {:induction false} FullIff(keys: Keys)
    ensures UsedSlots(keys) <= |keys|
    ensures UsedSlots(keys) == |keys| <==> forall i :: 0 <= i < |keys| ==> keys[i].Some?
  {
    if keys != [] {
      FullIff(keys[..|keys| - 1]);
    }
  }

  lemma {:induction false} EmptySlots(keys: Keys)
    requires forall i :: 0 <= i < |keys| ==> keys[i].None?
    ensures UsedSlots(keys) == 0
  {
    if keys != [] {
      EmptySlots(keys[..|keys| - 1]);
    }
  }

  // ---------- The dictionary ----------

  /** `ReadsNull` is a comparison with the key of a free slot. */
  datatype Answer = Gives(value: Option<string>) | ReadsNull

  ghost predicate HashesFit(keys: Keys, vals: Values, hashes: seq<nat>, dictionaryHash: string -> nat)
  {
    && |keys| == |vals| == |hashes|
    && (forall i :: 0 <= i < |keys| && keys[i].Some? ==> hashes[i] == dictionaryHash(keys[i].value))
    && (forall i :: 0 <= i < |keys| && keys[i].None? ==> hashes[i] == 0 && vals[i].None?)
  }

  /** A free slot comes before the key's slot, or the key has none. */
  ghost predicate FreeSlotFirst(keys: Keys, key: string) {
    exists i :: 0 <= i < |keys| && keys[i].None? && forall j :: 0 <= j < i ==> keys[j] != Some(key)
  }

  class Dictionary {
    const dictionaryHash: string -> nat
    var key: array<Option<string>>
    var val: array<Option<string>>
    var hash: array<nat>
    var n: nat
    var size: nat

    ghost predicate Valid()
      reads this, key, val, hash
    {
      && key != val && size >= DICTMINSZ && size == key.Length == val.Length == hash.Length
      && Unique(key[..]) && HashesFit(key[..], val[..], hash[..], dictionaryHash)
      && n == UsedSlots(key[..])
    }

    ghost function Map(): map<string, Option<string>>
      requires Valid()
      reads this, key, val, hash
    {
      Contents(key[..], val[..])
    }

    constructor (size: nat, dictionaryHash: string -> nat)
      ensures Valid() && Map() == map[] && this.dictionaryHash == dictionaryHash
      ensures fresh(key) && fresh(val) && fresh(hash) && this.size == if size < DICTMINSZ then DICTMINSZ else size
    {
      var s := if size < DICTMINSZ then DICTMINSZ else size;
      this.size, this.dictionaryHash, n := s, dictionaryHash, 0;
      key := new Option<string>[s](_ => None);
      val := new Option<string>[s](_ => None);
      hash := new nat[s](_ => 0);
      new;
      EmptySlots(key[..]);
      assert Used(key[..]) == {};
    }

    /** Line 279 asks whether there are keys at all, not whether the slot has one. */
    method Get(k: string, def: Option<string>) returns (r: Answer)
      requires Valid()
      ensures r == ReadsNull <==> dictionaryHash(k) == 0 && FreeSlotFirst(key[..], k)
      ensures r != ReadsNull ==> r == Gives(if k in Map() then Map()[k] else def)
    {
      var h := dictionaryHash(k);
      for i := 0 to size
        invariant forall j :: 0 <= j < i ==> key[j] != Some(k)
        invariant h == 0 ==> forall j :: 0 <= j < i ==> key[j].Some?
      {
        if h == hash[i] {
          if key[i].None? {
            assert key[..][i].None?;
            return ReadsNull;
          }
          if key[i].value == k {
            SlotIs(key[..], val[..], i);
            assert forall j :: 0 <= j < i ==> key[..][j] != Some(k);
            return Gives(val[i]);
          }
        }
      }
      UsedByNobody(key[..], k);
      r := Gives(def);
    }

    /** The slot with the key, or `size`. */
    method Find(k: string) returns (i: nat)
      requires Valid()
      ensures i <= size && (i < size ==> key[i] == Some(k))
      ensures i == size ==> k !in Used(key[..]) && forall j :: 0 <= j < size ==> key[j] != Some(k)
    {
      var h := dictionaryHash(k);
      i := 0;
      while i < size
        invariant 0 <= i <= size && forall j :: 0 <= j < i ==> key[j] != Some(k)
      {
        if key[i].Some? && h == hash[i] && key[i].value == k {
          return;
        }
        i := i + 1;
      }
      UsedByNobody(key[..], k);
    }

    method Set(k: Option<string>, v: Option<string>)
      requires Valid()
      modifies this, key, val, hash
      ensures Valid()
      ensures Map() == if k.None? then old(Map()) else old(Map())[k.value := v]
      ensures key == old(key) || fresh(key)
      ensures val == old(val) || fresh(val)
      ensures hash == old(hash) || fresh(hash)
    {
      hide Contents, Unique, UsedSlots, Used;
      if k.None? {
        return;
      }
      if n > 0 {
        var i := Find(k.value);
        if i < size {
          SlotReplaced(key[..], val[..], i, k, v);
          assert key[..][i := k] == key[..] && key[..][i] == k;
          val[i] := v;
          assert val[..] == old(val[..])[i := v];
          KeyIsThere(key[..], old(val[..]), i, v);
          return;
        }
      } else {
        NothingUsed(key[..], k.value);
      }
      FullIff(key[..]);
      if n == size {
        Grow();
      }
      Insert(k.value, v);
    }

    /** The doubling of `dictionary_set`. */
    method Grow()
      requires Valid()
      modifies this
      ensures Valid() && Map() == old(Map()) && Used(key[..]) == old(Used(key[..]))
      ensures n == old(n) && size == 2 * old(size) && fresh(key) && fresh(val) && fresh(hash)
    {
      hide Contents, Unique, UsedSlots, Used;
      GrownContents(key[..], val[..], size);
      ghost var keys, vals := key[..], val[..];
      val := MemDouble(val, None);
      key := MemDouble(key, None);
      hash := MemDouble(hash, 0);
      size := 2 * size;
      assert key[..] == keys + seq(|keys|, _ => None) && val[..] == vals + seq(|vals|, _ => None);
    }

    /** The insertion of `dictionary_set`; a slot is free because `n < size`. */
    method Insert(k: string, v: Option<string>)
      requires Valid() && n < size && k !in Used(key[..])
      modifies this`n, key, val, hash
      ensures Valid() && Map() == old(Map())[k := v] && n == old(n) + 1
    {
      hide Contents, Unique, UsedSlots, Used;
      ghost var keys, vals := key[..], val[..];
      FullIff(keys);
      var i := 0;
      while i < size && key[i].Some?
        invariant 0 <= i <= size && forall j :: 0 <= j < i ==> keys[j].Some?
      {
        i := i + 1;
      }
      SlotReplaced(keys, vals, i, Some(k), v);
      UsedSlotsAfter(keys, i, Some(k));
      key[i] := Some(k);
      val[i] := v;
      hash[i] := dictionaryHash(k);
      n := n + 1;
      assert key[..] == keys[i := Some(k)] && val[..] == vals[i := v];
    }

    method Unset(k: string)
      requires Valid()
      modifies this`n, key, val, hash
      ensures Valid() && Map() == old(Map()) - {k}
    {
      hide Contents, Unique, UsedSlots, Used;
      ghost var keys, vals := key[..], val[..];
      var i := Find(k);
      if i >= size {
        assert Contents(keys, vals) - {k} == Contents(keys, vals);
        return;
      }
      SlotReplaced(keys, vals, i, None, None);
      UsedSlotsAfter(keys, i, None);
      FullIff(keys[i := None]);
      key[i] := None;
      val[i] := None;
      hash[i] := 0;
      n := n - 1;
      assert key[..] == keys[i := None] && val[..] == vals[i := None];
    }
  }

  lemma {:induction false} NothingUsed(keys: Keys, key: string)
    requires UsedSlots(keys) == 0
    ensures key !in Used(keys)
  {
    if keys != [] {
      NothingUsed(keys[..|keys| - 1], key);
    }
  }

  /** A new value for a known key. */
  lemma KeyIsThere(keys: Keys, vals: Values, i: nat, v: Option<string>)
    requires |keys| == |vals| && Unique(keys) && i < |keys| && keys[i].Some?
    ensures (Contents(keys, vals) - {keys[i].value})[keys[i].value := v] == Contents(keys, vals)[keys[i].value := v]
  {
  }

  method MemDouble<T>(a: array<T>, zero: T) returns (b: array<T>)
    ensures fresh(b) && b[..] == a[..] + seq(a.Length, _ => zero)
  {
    b := new T[2 * a.Length](i requires 0 <= i < 2 * a.Length reads a => if i < a.Length then a[i] else zero);
    assert b[..a.Length] == a[..];
  }

  /** Without a zero hash a lookup never compares with a free slot; with one it
      does exactly when a free slot is met first.  A dictionary that has room
      always has one for a missing key. */
  lemma MissingKeyMeetsFreeSlot(keys: Keys, key: string)
    requires key !in Used(keys)
    ensures FreeSlotFirst(keys, key) <==> UsedSlots(keys) < |keys|
  {
    FullIff(keys);
    assert forall i :: 0 <= i < |keys| ==> keys[i] != Some(key);
  }

  // ---------- Runs ----------

  datatype Operation = SetKey(key: Option<string>, value: Option<string>) | UnsetKey(name: string)

  /** What a map would hold. */
  function MapAfter(ops: seq<Operation>): map<string, Option<string>> {
    if ops == [] then map[]
    else
      var m := MapAfter(ops[..|ops| - 1]);
      match ops[|ops| - 1]
      case SetKey(key, value) => if key.None? then m else m[key.value := value]
      case UnsetKey(name) => m - {name}
  }

  /** Over every run a dictionary is a map, from any size on, and a key with a
      hash other than 0 is looked up as in the map. */
  method RunAndGet(size: nat, dictionaryHash: string -> nat, ops: seq<Operation>, key: string, def: Option<string>)
    returns (r: Answer)
    ensures dictionaryHash(key) != 0 ==> r == Gives(if key in MapAfter(ops) then MapAfter(ops)[key] else def)
  {
    var d := new Dictionary(size, dictionaryHash);
    for i := 0 to |ops|
      invariant fresh(d) && fresh(d.key) && fresh(d.val) && fresh(d.hash)
      invariant d.Valid() && d.dictionaryHash == dictionaryHash && d.Map() == MapAfter(ops[..i])
    {
      assert ops[..i + 1][..i] == ops[..i];
      match ops[i]
      case SetKey(k, v) => d.Set(k, v);
      case UnsetKey(name) => d.Unset(name);
    }
    assert ops[..|ops|] == ops;
    r := d.Get(key, def);
  }
}
