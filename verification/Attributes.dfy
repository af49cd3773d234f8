/**
 The attribute engine (ompi/attribute/attribute.c; section 6.7 of MPI-3.0): reference-counted
 keyvals, and a table of attributes for each object.
 */
module Attributes {
  type Value(==, 0)

  type Obj = nat

  type Key = nat

  datatype Kind = CommAttr | TypeAttr | WinAttr

  /** ompi_attribute_keyval_t; freed says whether the user has released it. */
  datatype Keyval = Keyval(kind: Kind, predefined: bool, refs: nat, freed: bool)

  /** attribute_value_t: the value and the time at which it was set. */
  datatype Attr = Attr(value: Value, time: nat)

  type Table = map<Key, Attr>

  function WithAttr(t: Table, k: Key, a: Attr): Table {
    t[k := a]
  }

  datatype Status = Success | BadParam | NotFound | OutOfResource | CallbackFailed

  /** The objects that hold an attribute under the key. */
  ghost function Holders(objects: map<Obj, Table>, k: Key): set<Obj> {
    set o | o in objects && k in objects[o]
  }

  lemma HoldersUpdate(objects: map<Obj, Table>, o: Obj, t: Table, k: Key)
    requires o in objects
    ensures k in t && k !in objects[o] ==> |Holders(objects[o := t], k)| == |Holders(objects, k)| + 1
    ensures k !in t && k in objects[o] ==> |Holders(objects[o := t], k)| == |Holders(objects, k)| - 1
    ensures (k in t <==> k in objects[o]) ==> Holders(objects[o := t], k) == Holders(objects, k)
  {
    var before, after := Holders(objects, k), Holders(objects[o := t], k);
    if k in t && k !in objects[o] {
      assert after == before + {o};
    }
    if k !in t && k in objects[o] {
      assert before == after + {o};
    }
  }

  /** A table entry belongs to a live keyval of the kind of its object, and was set in the past. */
  predicate EntryOk(keyvals: map<Key, Keyval>, kinds: map<Obj, Kind>, now: nat, o: Obj, t: Table) {
    && o in kinds
    && (forall k :: k in t ==> k in keyvals && keyvals[k].kind == kinds[o] && t[k].time < now)
    && (forall k, l :: k in t && l in t && k != l ==> t[k].time != t[l].time)
  }

  /** The count of a keyval: one for the user until released, and one for each object that holds it. */
  ghost predicate CountOk(kv: Keyval, objects: map<Obj, Table>, k: Key) {
    kv.refs > 0 && kv.refs == (if kv.freed then 0 else 1) + |Holders(objects, k)|
  }

  ghost predicate Sound(keyvals: map<Key, Keyval>, objects: map<Obj, Table>, kinds: map<Obj, Kind>, now: nat) {
    && objects.Keys == kinds.Keys
    && (forall o :: o in objects ==> EntryOk(keyvals, kinds, now, o, objects[o]))
    && (forall k :: k in keyvals ==> CountOk(keyvals[k], objects, k))
  }

  /** OBJ_RELEASE of a keyval: the last reference takes the key out of the table. */
  function Released(keyvals: map<Key, Keyval>, k: Key): map<Key, Keyval>
    requires k in keyvals && keyvals[k].refs > 0
  {
    if keyvals[k].refs == 1 then keyvals - {k} else keyvals[k := keyvals[k].(refs := keyvals[k].refs - 1)]
  }

  lemma NewObjectSound(keyvals: map<Key, Keyval>, objects: map<Obj, Table>, kinds: map<Obj, Kind>, now: nat, o: Obj, kind: Kind)
    requires Sound(keyvals, objects, kinds, now) && o !in objects
    ensures Sound(keyvals, objects[o := map[]], kinds[o := kind], now)
  {
    var objects', kinds' := objects[o := map[]], kinds[o := kind];
    forall k | k in keyvals ensures CountOk(keyvals[k], objects', k) {
      assert CountOk(keyvals[k], objects, k);
      assert Holders(objects', k) == Holders(objects, k);
    }
    hide Holders;
    forall p | p in objects' ensures EntryOk(keyvals, kinds', now, p, objects'[p]) {
      assert p != o ==> EntryOk(keyvals, kinds, now, p, objects[p]);
    }
  }

  lemma NobodyHolds(keyvals: map<Key, Keyval>, objects: map<Obj, Table>, kinds: map<Obj, Kind>, now: nat, k: Key)
    requires Sound(keyvals, objects, kinds, now) && k !in keyvals
    ensures Holders(objects, k) == {}
  {
    forall o | o in objects ensures k !in objects[o] {
      assert EntryOk(keyvals, kinds, now, o, objects[o]);
    }
  }

  lemma CreateSound(keyvals: map<Key, Keyval>, objects: map<Obj, Table>, kinds: map<Obj, Kind>, now: nat, k: Key, kind: Kind, predefined: bool)
    requires Sound(keyvals, objects, kinds, now) && k !in keyvals
    ensures Sound(keyvals[k := Keyval(kind, predefined, 1, false)], objects, kinds, now)
  {
    hide Holders;
    NobodyHolds(keyvals, objects, kinds, now, k);
    var after := keyvals[k := Keyval(kind, predefined, 1, false)];
    forall l | l in after ensures CountOk(after[l], objects, l) {
      assert l != k ==> CountOk(keyvals[l], objects, l);
    }
    forall o | o in objects ensures EntryOk(after, kinds, now, o, objects[o]) {
      assert EntryOk(keyvals, kinds, now, o, objects[o]);
    }
  }

  /** The user releases a keyval: it lives on as long as some object holds it. */
  lemma FreeSound(keyvals: map<Key, Keyval>, objects: map<Obj, Table>, kinds: map<Obj, Kind>, now: nat, k: Key)
    requires Sound(keyvals, objects, kinds, now) && k in keyvals && !keyvals[k].freed
    ensures Sound(Released(keyvals[k := keyvals[k].(freed := true)], k), objects, kinds, now)
    ensures k in Released(keyvals[k := keyvals[k].(freed := true)], k) <==> Holders(objects, k) != {}
  {
    hide Holders, EntryOk;
    var marked := keyvals[k := keyvals[k].(freed := true)];
    var after := Released(marked, k);
    assert CountOk(keyvals[k], objects, k);
    assert |Holders(objects, k)| == 0 <==> Holders(objects, k) == {};
    forall l | l in after ensures CountOk(after[l], objects, l) {
      assert CountOk(keyvals[l], objects, l);
    }
    forall o | o in objects ensures EntryOk(after, kinds, now, o, objects[o]) {
      assert EntryOk(keyvals, kinds, now, o, objects[o]);
      MarkedEntry(keyvals, kinds, now, o, objects[o], k);
      if marked[k].refs == 1 {
        NotHeld(objects, k, o);
      }
      DeleteEntry(marked, kinds, now, o, objects[o], k);
    }
  }

  /** Released again, it has one reference less than holders, or none while somebody holds it. */
  lemma FreedTwice(keyvals: map<Key, Keyval>, objects: map<Obj, Table>, kinds: map<Obj, Kind>, now: nat, k: Key)
    requires Sound(keyvals, objects, kinds, now) && k in keyvals && keyvals[k].freed
    ensures !Sound(Released(keyvals[k := keyvals[k].(freed := true)], k), objects, kinds, now)
    ensures Holders(objects, k) != {} && (k in Released(keyvals[k := keyvals[k].(freed := true)], k) <==> |Holders(objects, k)| > 1)
  {
    hide Holders;
    assert CountOk(keyvals[k], objects, k);
    assert |Holders(objects, k)| > 0;
    var after := Released(keyvals[k := keyvals[k].(freed := true)], k);
    if k in after {
      assert !CountOk(after[k], objects, k);
    } else {
      var o := AnyHolder(objects, k);
      assert !EntryOk(after, kinds, now, o, objects[o]);
    }
  }

  lemma AnyHolder(objects: map<Obj, Table>, k: Key) returns (o: Obj)
    requires Holders(objects, k) != {}
    ensures o in objects && k in objects[o]
  {
    o :| o in Holders(objects, k);
  }

  lemma MarkedEntry(keyvals: map<Key, Keyval>, kinds: map<Obj, Kind>, now: nat, o: Obj, t: Table, k: Key)
    requires k in keyvals && EntryOk(keyvals, kinds, now, o, t)
    ensures EntryOk(keyvals[k := keyvals[k].(freed := true)], kinds, now, o, t)
  {
  }

  lemma NotHeld(objects: map<Obj, Table>, k: Key, p: Obj)
    requires Holders(objects, k) == {} && p in objects
    ensures k !in objects[p]
  {
    assert k in objects[p] ==> p in Holders(objects, k);
  }

  /** An attribute goes away, and with the last one a keyval that the user has released. */
  lemma DeleteSound(keyvals: map<Key, Keyval>, objects: map<Obj, Table>, kinds: map<Obj, Kind>, now: nat, o: Obj, k: Key)
    requires Sound(keyvals, objects, kinds, now) && o in objects && k in objects[o] && k in keyvals
    ensures keyvals[k].refs > 0 && Sound(Released(keyvals, k), objects[o := objects[o] - {k}], kinds, now)
  {
    hide Holders, EntryOk, CountOk;
    CountPositive(keyvals, objects, kinds, now, k);
    var after, objects' := Released(keyvals, k), objects[o := objects[o] - {k}];
    forall l | l in after ensures CountOk(after[l], objects', l) {
      DeleteCount(keyvals, objects, o, k, l);
    }
    LastReference(keyvals, objects, kinds, now, o, k);
    forall p | p in objects' ensures EntryOk(after, kinds, now, p, objects'[p]) {
      assert EntryOk(keyvals, kinds, now, p, objects[p]);
      if keyvals[k].refs == 1 {
        NotHeld(objects', k, p);
      }
      DeleteEntry(keyvals, kinds, now, p, objects[p], k);
    }
  }

  lemma DeleteCount(keyvals: map<Key, Keyval>, objects: map<Obj, Table>, o: Obj, k: Key, l: Key)
    requires o in objects && k in objects[o] && k in keyvals && keyvals[k].refs > 0
    requires l in Released(keyvals, k) && l in keyvals && CountOk(keyvals[l], objects, l)
    ensures CountOk(Released(keyvals, k)[l], objects[o := objects[o] - {k}], l)
  {
    hide Holders;
    HoldersUpdate(objects, o, objects[o] - {k}, l);
  }

  /** Entries other than the one deleted keep their keyvals. */
  lemma DeleteEntry(keyvals: map<Key, Keyval>, kinds: map<Obj, Kind>, now: nat, p: Obj, t: Table, k: Key)
    requires k in keyvals && keyvals[k].refs > 0 && EntryOk(keyvals, kinds, now, p, t)
    ensures EntryOk(Released(keyvals, k), kinds, now, p, t - {k})
    ensures k !in t || keyvals[k].refs > 1 ==> EntryOk(Released(keyvals, k), kinds, now, p, t)
  {
  }

  /** A new attribute counts its keyval once more; a replaced one does not. */
  lemma SetSound(keyvals: map<Key, Keyval>, objects: map<Obj, Table>, kinds: map<Obj, Kind>, now: nat, o: Obj, k: Key, v: Value)
    requires Sound(keyvals, objects, kinds, now) && o in objects && k in keyvals && keyvals[k].kind == kinds[o]
    ensures Sound(Counted(keyvals, k, k in objects[o]), objects[o := WithAttr(objects[o], k, Attr(v, now))], kinds, now + 1)
  {
    hide Holders, EntryOk, CountOk;
    var after, objects' := Counted(keyvals, k, k in objects[o]), objects[o := WithAttr(objects[o], k, Attr(v, now))];
    forall l | l in after ensures CountOk(after[l], objects', l) {
      SetCount(keyvals, objects, o, k, Attr(v, now), l);
    }
    forall p | p in objects' ensures EntryOk(after, kinds, now + 1, p, objects'[p]) {
      assert EntryOk(keyvals, kinds, now, p, objects[p]);
      SetEntry(keyvals, kinds, now, p, objects[p], k, v, k in objects[o]);
    }
  }

  function Counted(keyvals: map<Key, Keyval>, k: Key, hadOld: bool): map<Key, Keyval>
    requires k in keyvals
  {
    if hadOld then keyvals else keyvals[k := keyvals[k].(refs := keyvals[k].refs + 1)]
  }

  lemma SetCount(keyvals: map<Key, Keyval>, objects: map<Obj, Table>, o: Obj, k: Key, a: Attr, l: Key)
    requires o in objects && k in keyvals && l in keyvals && CountOk(keyvals[l], objects, l)
    ensures CountOk(Counted(keyvals, k, k in objects[o])[l], objects[o := WithAttr(objects[o], k, a)], l)
  {
    hide Holders;
    HoldersUpdate(objects, o, WithAttr(objects[o], k, a), l);
  }

  lemma SetEntry(keyvals: map<Key, Keyval>, kinds: map<Obj, Kind>, now: nat, p: Obj, t: Table, k: Key, v: Value, hadOld: bool)
    requires k in keyvals && EntryOk(keyvals, kinds, now, p, t)
    ensures EntryOk(Counted(keyvals, k, hadOld), kinds, now + 1, p, t)
    ensures keyvals[k].kind == kinds[p] ==> EntryOk(Counted(keyvals, k, hadOld), kinds, now + 1, p, WithAttr(t, k, Attr(v, now)))
  {
  }

  /** All keyvals but one are as before, and no other has come up. */
  predicate OthersKept(before: map<Key, Keyval>, after: map<Key, Keyval>, key: Key) {
    && (forall k :: k in before && k != key ==> k in after && after[k] == before[k])
    && (forall k :: k in after && k != key ==> k in before)
  }

  /**
   One object went from table t to table u: a keyval is counted once more for an attribute that came,
   once less for one that went, which recycles the key at the last reference, and nothing else changes.
   */
  predicate Recounted(before: map<Key, Keyval>, after: map<Key, Keyval>, t: Table, u: Table) {
    && (forall k :: k in after ==> k in before)
    && (forall k :: k in before ==>
          if k in u && k !in t then k in after && after[k] == before[k].(refs := before[k].refs + 1)
          else if k in t && k !in u then
            (if before[k].refs == 1 then k !in after else k in after && before[k].refs > 1 && after[k] == before[k].(refs := before[k].refs - 1))
          else k in after && after[k] == before[k])
  }

  /** Every attribute of the table after is as before, or has been set at that time or later. */
  predicate SetSince(before: Table, after: Table, time: nat) {
    forall k :: k in after ==> (k in before && after[k] == before[k]) || after[k].time >= time
  }

  lemma SinceNone(t: Table, time: nat)
    ensures SetSince(t, t, time)
  {
  }

  lemma SinceNext(before: Table, after: Table, time: nat, k: Key, a: Attr)
    requires SetSince(before, after, time) && a.time >= time
    ensures SetSince(before, WithAttr(after, k, a), time)
  {
  }

  class Engine {
    const maxKey: nat
    var keyvals: map<Key, Keyval>
    var bitmap: set<Key>
    var objects: map<Obj, Table>
    var kinds: map<Obj, Kind>
    var sequence: nat

    /** Bitmap and keyval table agree, every entry has a live keyval, and every count is right. */
    ghost predicate Valid()
      reads this
    {
      bitmap == keyvals.Keys && Sound(keyvals, objects, kinds, sequence)
    }

    constructor (maxKey: nat)
      ensures Valid() && keyvals == map[] && objects == map[] && this.maxKey == maxKey
    {
      this.maxKey, keyvals, bitmap, objects, kinds, sequence := maxKey, map[], {}, map[], map[], 0;
    }

    /** A new MPI object, without attributes. */
    method NewObject(o: Obj, kind: Kind)
      requires Valid() && o !in objects
      modifies this
      ensures Valid() && objects == old(objects)[o := map[]] && kinds == old(kinds)[o := kind] && keyvals == old(keyvals) && sequence == old(sequence)
    {
      hide Sound;
      NewObjectSound(keyvals, objects, kinds, sequence, o, kind);
      objects, kinds := objects[o := map[]], kinds[o := kind];
    }

    /** ompi_attr_create_keyval_impl: the least key that is not in use, so never one that an attribute uses. */
    method CreateKeyval(kind: Kind, predefined: bool) returns (rc: Status, key: Key)
      requires Valid()
      modifies this
      ensures Valid() && (rc == Success || rc == OutOfResource) && objects == old(objects) && kinds == old(kinds) && sequence == old(sequence)
      ensures rc == Success ==> key < maxKey && key !in old(keyvals) && (forall k: Key :: k < key ==> k in old(keyvals))
      ensures rc == Success ==> Holders(objects, key) == {} && keyvals == old(keyvals)[key := Keyval(kind, predefined, 1, false)]
      ensures rc == OutOfResource ==> keyvals == old(keyvals) && forall k: Key :: k < maxKey ==> k in keyvals
    {
      hide Sound, Holders;
      key := 0;
      while key < maxKey && key in bitmap
        invariant key <= maxKey && forall k: Key :: k < key ==> k in bitmap
      {
        key := key + 1;
      }
      if key >= maxKey {
        return OutOfResource, key;
      }
      CreateSound(keyvals, objects, kinds, sequence, key, kind, predefined);
      NobodyHolds(keyvals, objects, kinds, sequence, key);
      bitmap := bitmap + {key};
      keyvals := keyvals[key := Keyval(kind, predefined, 1, false)];
      rc := Success;
    }

    /** The tests at the start of every operation on a key. */
    predicate Usable(kind: Kind, key: Key, predefined: bool)
      reads this
    {
      key in keyvals && keyvals[key].kind == kind && (predefined || !keyvals[key].predefined)
    }

    /** OBJ_RELEASE, with ompi_attribute_keyval_destruct at the last reference. */
    method Release(key: Key)
      requires bitmap == keyvals.Keys && key in keyvals && keyvals[key].refs > 0
      modifies this`keyvals, this`bitmap
      ensures keyvals == Released(old(keyvals), key) && bitmap == keyvals.Keys
    {
      if keyvals[key].refs == 1 {
        keyvals := keyvals - {key};
        bitmap := bitmap - {key};
      } else {
        keyvals := keyvals[key := keyvals[key].(refs := keyvals[key].refs - 1)];
      }
    }

    /**
     ompi_attr_free_keyval. The user may call it once for each key: a second call, accepted while
     attributes still hold the key, takes away the reference of one of them.
     */
    method FreeKeyval(kind: Kind, key: Key, predefined: bool) returns (rc: Status)
      requires Valid()
      modifies this
      ensures objects == old(objects) && kinds == old(kinds) && sequence == old(sequence) && bitmap == keyvals.Keys
      ensures rc == if old(Usable(kind, key, predefined)) then Success else BadParam
      ensures Valid() <==> rc == BadParam || !old(keyvals)[key].freed
      ensures rc == BadParam ==> keyvals == old(keyvals)
      ensures rc == Success && !old(keyvals)[key].freed ==> (key in keyvals <==> Holders(objects, key) != {})
      ensures rc == Success && old(keyvals)[key].freed ==> Holders(objects, key) != {} && (key in keyvals <==> |Holders(objects, key)| > 1)
      ensures rc == Success && key in keyvals ==> keyvals[key] == old(keyvals)[key].(refs := old(keyvals)[key].refs - 1, freed := true)
      ensures OthersKept(old(keyvals), keyvals, key)
    {
      hide Sound, Holders;
      if !Usable(kind, key, predefined) {
        return BadParam;
      }
      if keyvals[key].freed {
        FreedTwice(keyvals, objects, kinds, sequence, key);
      } else {
        FreeSound(keyvals, objects, kinds, sequence, key);
      }
      CountPositive(keyvals, objects, kinds, sequence, key);
      keyvals := keyvals[key := keyvals[key].(freed := true)];
      assert bitmap == keyvals.Keys;
      Release(key);
      rc := Success;
    }

    /** set_value; ok is what the delete callback for a replaced value returns. */
    method SetValue(kind: Kind, o: Obj, key: Key, v: Value, predefined: bool, ok: bool) returns (rc: Status)
      requires Valid() && o in objects && kinds[o] == kind
      modifies this
      ensures Valid() && kinds == old(kinds)
      ensures rc == if !old(Usable(kind, key, predefined)) then BadParam
                    else if key in old(objects)[o] && !ok then CallbackFailed else Success
      ensures rc != Success ==> keyvals == old(keyvals) && objects == old(objects) && sequence == old(sequence)
      ensures rc == Success ==> objects == old(objects)[o := WithAttr(old(objects)[o], key, Attr(v, old(sequence)))] && sequence == old(sequence) + 1
      ensures keyvals.Keys == old(keyvals).Keys && OthersKept(old(keyvals), keyvals, key)
      ensures rc == Success && key in old(objects)[o] ==> keyvals[key] == old(keyvals)[key]
      ensures rc == Success && key !in old(objects)[o] ==> keyvals[key] == old(keyvals)[key].(refs := old(keyvals)[key].refs + 1)
    {
      hide Sound;
      if !Usable(kind, key, predefined) {
        return BadParam;
      }
      var hadOld := key in objects[o];
      if hadOld && !ok {
        return CallbackFailed;
      }
      SetSound(keyvals, objects, kinds, sequence, o, key, v);
      objects := objects[o := WithAttr(objects[o], key, Attr(v, sequence))];
      sequence := sequence + 1;
      if !hadOld {
        keyvals := keyvals[key := keyvals[key].(refs := keyvals[key].refs + 1)];
      }
      rc := Success;
    }

    /** ompi_attr_delete_impl; ok is what the delete callback returns. */
    method DeleteImpl(kind: Kind, o: Obj, key: Key, predefined: bool, ok: bool) returns (rc: Status)
      requires Valid() && o in objects && kinds[o] == kind
      modifies this
      ensures Valid() && kinds == old(kinds) && sequence == old(sequence)
      ensures rc == if !old(Usable(kind, key, predefined)) then BadParam
                    else if key !in old(objects)[o] then NotFound else if !ok then CallbackFailed else Success
      ensures rc != Success ==> keyvals == old(keyvals) && objects == old(objects)
      ensures rc == Success ==> objects == old(objects)[o := old(objects)[o] - {key}]
      ensures rc == Success ==> (key in keyvals <==> !old(keyvals)[key].freed || Holders(objects, key) != {})
      ensures rc == Success ==> (key in keyvals <==> old(keyvals)[key].refs != 1)
      ensures rc == Success && key in keyvals ==> keyvals[key] == old(keyvals)[key].(refs := old(keyvals)[key].refs - 1)
      ensures OthersKept(old(keyvals), keyvals, key)
    {
      hide Sound, Holders;
      if !Usable(kind, key, predefined) {
        return BadParam;
      }
      if key !in objects[o] {
        return NotFound;
      }
      if !ok {
        return CallbackFailed;
      }
      DeleteSound(keyvals, objects, kinds, sequence, o, key);
      LastReference(keyvals, objects, kinds, sequence, o, key);
      objects := objects[o := objects[o] - {key}];
      Release(key);
      rc := Success;
    }

    /** One turn of that loop: an entry of the table passes the tests on its key. */
    method DeleteNext(kind: Kind, o: Obj, key: Key, ok: bool, ghost t: Table, ghost first: map<Key, Keyval>) returns (rc: Status)
      requires Valid() && o in objects && kinds[o] == kind && key in objects[o] && key in t && Recounted(first, keyvals, t, objects[o])
      modifies this
      ensures Valid() && kinds == old(kinds) && sequence == old(sequence) && rc == if ok then Success else CallbackFailed
      ensures objects == if ok then old(objects)[o := old(objects)[o] - {key}] else old(objects)
      ensures Recounted(first, keyvals, t, objects[o])
    {
      hide Sound, Holders, Recounted, OthersKept;
      ghost var before, u := keyvals, objects[o];
      EntriesUsable(keyvals, objects, kinds, sequence, o);
      CountPositive(keyvals, objects, kinds, sequence, key);
      rc := DeleteImpl(kind, o, key, true, ok);
      if rc == Success {
        RecountDelete(first, before, keyvals, t, u, key);
      }
    }

    /**
     ompi_attr_delete_all: calls the delete callbacks in the reverse of the order in which the
     attributes were set, and stops at the first that fails.
     */
    method DeleteAll(kind: Kind, o: Obj, callback: (Key, Value) -> bool) returns (rc: Status, called: seq<Key>)
      requires Valid() && o in objects && kinds[o] == kind
      modifies this
      ensures Valid() && kinds == old(kinds) && objects.Keys == old(objects).Keys && sequence == old(sequence)
      ensures forall p :: p in objects && p != o ==> objects[p] == old(objects)[p]
      ensures Recounted(old(keyvals), keyvals, old(objects)[o], objects[o])
      ensures (forall k :: k in called ==> k in old(objects)[o]) && Latest(old(objects)[o], called)
      ensures rc == Success ==> objects[o] == map[] && forall k :: k in old(objects)[o] ==> k in called
      ensures rc != Success ==> rc == CallbackFailed && called != [] && called[|called| - 1] in old(objects)[o]
      ensures rc != Success ==> (var t, f := old(objects)[o], called[|called| - 1]; !callback(f, t[f].value) && objects[o] == Until(t, t[f].time))
    {
      hide Sound, Holders, Among, Backwards, InOrder, Latest, Until, Recounted, OthersKept;
      ghost var t := objects[o];
      EntriesUsable(keyvals, objects, kinds, sequence, o);
      var keys := SortByTime(objects[o]);
      called, rc := [], Success;
      var i := |keys|;
      UntilAll(t, keys);
      RecountNone(keyvals, t);
      while i > 0
        invariant 0 <= i <= |keys| && Valid() && kinds == old(kinds) && objects.Keys == old(objects).Keys && rc == Success
        invariant (forall p :: p in objects && p != o ==> objects[p] == old(objects)[p]) && objects[o] == Among(t, keys[..i])
        invariant sequence == old(sequence) && Recounted(old(keyvals), keyvals, t, objects[o])
        invariant called == Backwards(keys[i..])
      {
        i := i - 1;
        var key := keys[i];
        EntriesUsable(keyvals, objects, kinds, sequence, o);
        AmongLast(t, keys, i);
        BackwardsStep(keys, i);
        var ok := callback(key, objects[o][key].value);
        called := called + [key];
        rc := DeleteNext(kind, o, key, ok, t, old(keyvals));
        if rc != Success {
          break;
        }
      }
      CalledOrder(t, keys, i);
      if rc != Success {
        UntilPrefix(t, keys, i);
      } else {
        AmongNone(t, keys);
      }
    }

    /**
     ompi_attr_copy_all: the copy callback says whether and with what value; the delete callback is
     asked about a value that is replaced. After a failure the attributes before it have been copied.
     */
    method CopyAll(kind: Kind, from: Obj, to: Obj, callback: (Key, Value) -> CopyResult, deleted: (Key, Value) -> bool)
      returns (rc: Status, ghost done: set<Key>)
      requires Valid() && from in objects && to in objects && from != to && kinds[from] == kinds[to] == kind
      modifies this
      ensures Valid() && kinds == old(kinds) && keyvals.Keys == old(keyvals).Keys && objects.Keys == old(objects).Keys
      ensures forall p :: p in objects && p != to ==> objects[p] == old(objects)[p]
      ensures Recounted(old(keyvals), keyvals, old(objects)[to], objects[to])
      ensures sequence >= old(sequence) && SetSince(old(objects)[to], objects[to], old(sequence))
      ensures done <= old(objects)[from].Keys && Copies(old(objects)[from], callback, done, old(objects)[to], objects[to])
      ensures rc == Success ==> done == old(objects)[from].Keys
      ensures rc != Success ==> exists k :: k in old(objects)[from] && k !in done && Refuses(old(objects)[from], old(objects)[to], callback, deleted, k)
    {
      hide Sound, Copies, Recounted, OthersKept, SetSince;
      ghost var t, before := objects[from], objects[to];
      RecountNone(keyvals, before);
      SinceNone(before, sequence);
      var rest := objects[from].Keys;
      done := {};
      CopiesNone(t, callback, before);
      while rest != {}
        invariant rest <= t.Keys && done == t.Keys - rest
        invariant Valid() && kinds == old(kinds) && keyvals.Keys == old(keyvals).Keys && objects.Keys == old(objects).Keys
        invariant forall p :: p in objects && p != to ==> objects[p] == old(objects)[p]
        invariant Copies(t, callback, done, before, objects[to])
        invariant Recounted(old(keyvals), keyvals, before, objects[to])
        invariant sequence >= old(sequence) && SetSince(before, objects[to], old(sequence))
        decreases rest
      {
        var key :| key in rest;
        EntriesUsable(keyvals, objects, kinds, sequence, from);
        CopiesNext(t, callback, done, before, objects[to], key, sequence);
        match callback(key, objects[from][key].value) {
          case Error => return CallbackFailed, done;
          case NotCopied =>
          case Copied(v) =>
            ghost var counted, u := keyvals, objects[to];
            var status := SetValue(kind, to, key, v, true, key in objects[to] && deleted(key, objects[to][key].value));
            if status != Success {
              return status, done;
            }
            SinceNext(before, u, old(sequence), key, objects[to][key]);
            RecountSet(old(keyvals), counted, keyvals, before, u, key, objects[to][key]);
        }
        rest := rest - {key};
        done := done + {key};
      }
      rc := Success;
    }
  }

  /** What a copy callback returns. */
  datatype CopyResult = Error | NotCopied | Copied(value: Value)

  /** The table after the attributes in `done` have been copied: other entries are as they were before. */
  ghost predicate Copies(t: Table, callback: (Key, Value) -> CopyResult, done: set<Key>, before: Table, after: Table) {
    forall k :: if k in done && k in t && callback(k, t[k].value).Copied?
                then k in after && after[k].value == callback(k, t[k].value).value
                else (k in after <==> k in before) && (k in before ==> k in after && after[k] == before[k])
  }

  lemma CopiesNone(t: Table, callback: (Key, Value) -> CopyResult, before: Table)
    ensures Copies(t, callback, {}, before, before)
  {
  }

  lemma CopiesNext(t: Table, callback: (Key, Value) -> CopyResult, done: set<Key>, before: Table, after: Table, k: Key, time: nat)
    requires Copies(t, callback, done, before, after) && k in t && k !in done
    ensures k in after <==> k in before
    ensures k in before ==> after[k] == before[k]
    ensures callback(k, t[k].value).NotCopied? ==> Copies(t, callback, done + {k}, before, after)
    ensures callback(k, t[k].value).Copied? ==> Copies(t, callback, done + {k}, before, WithAttr(after, k, Attr(callback(k, t[k].value).value, time)))
  {
  }

  /** A callback makes the copying stop at k. */
  ghost predicate Refuses(t: Table, before: Table, callback: (Key, Value) -> CopyResult, deleted: (Key, Value) -> bool, k: Key)
    requires k in t
  {
    var c := callback(k, t[k].value);
    c.Error? || (c.Copied? && k in before && !deleted(k, before[k].value))
  }

  lemma RecountNone(keyvals: map<Key, Keyval>, t: Table)
    ensures Recounted(keyvals, keyvals, t, t)
  {
  }

  lemma RecountDelete(first: map<Key, Keyval>, before: map<Key, Keyval>, after: map<Key, Keyval>, t: Table, u: Table, key: Key)
    requires Recounted(first, before, t, u) && OthersKept(before, after, key) && key in t && key in u && key in before
    requires key in after <==> before[key].refs != 1
    requires before[key].refs > 0 && (key in after ==> after[key] == before[key].(refs := before[key].refs - 1))
    ensures Recounted(first, after, t, u - {key})
  {
  }

  lemma RecountSet(first: map<Key, Keyval>, before: map<Key, Keyval>, after: map<Key, Keyval>, t: Table, u: Table, key: Key, a: Attr)
    requires Recounted(first, before, t, u) && OthersKept(before, after, key) && key in before && key in after && (key in u <==> key in t)
    requires after[key] == if key in u then before[key] else before[key].(refs := before[key].refs + 1)
    ensures Recounted(first, after, t, WithAttr(u, key, a))
  {
  }

  /** Every entry of a sound table passes the tests on its key. */
  lemma EntriesUsable(keyvals: map<Key, Keyval>, objects: map<Obj, Table>, kinds: map<Obj, Kind>, now: nat, o: Obj)
    requires Sound(keyvals, objects, kinds, now) && o in objects
    ensures forall k :: k in objects[o] ==> k in keyvals && keyvals[k].kind == kinds[o]
    ensures var t := objects[o]; forall k, l :: k in t && l in t && k != l ==> t[k].time != t[l].time
  {
    assert EntryOk(keyvals, kinds, now, o, objects[o]);
  }

  // ---------------------------------------------------------------------------------------
  // Order of deletion

  /** The keys of a table in the order in which they were set. */
  predicate InOrder(t: Table, keys: seq<Key>) {
    && (forall i :: 0 <= i < |keys| ==> keys[i] in t)
    && (forall i, j :: 0 <= i < j < |keys| ==> t[keys[i]].time < t[keys[j]].time)
  }

  /** Each one was set before the one before it in the list. */
  predicate Latest(t: Table, keys: seq<Key>) {
    && (forall i :: 0 <= i < |keys| ==> keys[i] in t)
    && (forall i, j :: 0 <= i < j < |keys| ==> t[keys[i]].time > t[keys[j]].time)
  }

  /** The attributes that were set at that time or before. */
  function Until(t: Table, time: nat): Table {
    map k | k in t && t[k].time <= time :: t[k]
  }

  function Among(t: Table, keys: seq<Key>): Table {
    map k | k in t && k in keys :: t[k]
  }

  function Backwards(keys: seq<Key>): (r: seq<Key>)
    ensures |r| == |keys|
  {
    seq(|keys|, i requires 0 <= i < |keys| => keys[|keys| - 1 - i])
  }

  /** qsort with compare_attr_sequence, on the entries in the order in which the table lists them. */
  method SortByTime(t: Table) returns (keys: seq<Key>)
    requires forall k, l :: k in t && l in t && k != l ==> t[k].time != t[l].time
    ensures InOrder(t, keys) && forall k :: k in t <==> k in keys
  {
    keys := [];
    var rest := t.Keys;
    while rest != {}
      invariant rest <= t.Keys && InOrder(t, keys) && forall k :: k in t <==> k in keys || k in rest
      invariant forall k :: k in rest ==> k !in keys
      decreases rest
    {
      var key :| key in rest;
      rest := rest - {key};
      var i := |keys|;
      while i > 0 && t[keys[i - 1]].time > t[key].time
        invariant 0 <= i <= |keys| && forall j :: i <= j < |keys| ==> t[keys[j]].time > t[key].time
      {
        i := i - 1;
      }
      PutInOrder(t, keys, i, key);
      keys := keys[..i] + [key] + keys[i..];
    }
  }

  lemma PutInOrder(t: Table, keys: seq<Key>, i: nat, key: Key)
    requires InOrder(t, keys) && i <= |keys| && key in t && key !in keys
    requires forall k, l :: k in t && l in t && k != l ==> t[k].time != t[l].time
    requires forall j :: i <= j < |keys| ==> t[keys[j]].time > t[key].time
    requires i > 0 ==> t[keys[i - 1]].time <= t[key].time
    ensures InOrder(t, keys[..i] + [key] + keys[i..])
    ensures forall k :: k in keys[..i] + [key] + keys[i..] <==> k in keys || k == key
  {
    assert i > 0 ==> keys[i - 1] in keys;
    forall j | 0 <= j < i ensures t[keys[j]].time < t[key].time {
      OrderedPair(t, keys, j, i - 1);
    }
    PutBetween(t, keys, i, key);
    PutKeys(keys, i, key);
  }

  lemma PutBetween(t: Table, keys: seq<Key>, i: nat, key: Key)
    requires InOrder(t, keys) && i <= |keys| && key in t
    requires forall j :: 0 <= j < i ==> t[keys[j]].time < t[key].time
    requires forall j :: i <= j < |keys| ==> t[key].time < t[keys[j]].time
    ensures InOrder(t, keys[..i] + [key] + keys[i..])
  {
    var longer := keys[..i] + [key] + keys[i..];
    forall a, b | 0 <= a < b < |longer| ensures longer[a] in t && longer[b] in t && t[longer[a]].time < t[longer[b]].time {
      assert longer[a] == if a < i then keys[a] else if a == i then key else keys[a - 1];
      assert longer[b] == if b < i then keys[b] else if b == i then key else keys[b - 1];
    }
  }

  lemma PutKeys(keys: seq<Key>, i: nat, key: Key)
    requires i <= |keys|
    ensures forall k :: k in keys[..i] + [key] + keys[i..] <==> k in keys || k == key
  {
    assert keys == keys[..i] + keys[i..];
  }

  lemma AmongNone(t: Table, keys: seq<Key>)
    ensures Among(t, keys[..0]) == map[]
  {
  }

  lemma BackwardsStep(keys: seq<Key>, i: nat)
    requires i < |keys|
    ensures Backwards(keys[i..]) == Backwards(keys[i + 1..]) + [keys[i]]
  {
  }

  lemma UntilAll(t: Table, keys: seq<Key>)
    requires forall k :: k in t <==> k in keys
    ensures Among(t, keys[..|keys|]) == t && Backwards(keys[|keys|..]) == []
  {
    assert keys[..|keys|] == keys;
  }

  /** Without the last key of the list, the table lists one less. */
  lemma AmongLast(t: Table, keys: seq<Key>, i: nat)
    requires InOrder(t, keys) && i < |keys|
    ensures keys[i] in t && keys[i] in Among(t, keys[..i + 1]) && Among(t, keys[..i + 1])[keys[i]] == t[keys[i]]
    ensures Among(t, keys[..i + 1]) - {keys[i]} == Among(t, keys[..i])
  {
    assert keys[..i + 1] == keys[..i] + [keys[i]];
    assert keys[i] !in keys[..i];
  }

  lemma CalledOrder(t: Table, keys: seq<Key>, i: nat)
    requires InOrder(t, keys) && i <= |keys|
    ensures Latest(t, Backwards(keys[i..])) && |Backwards(keys[i..])| == |keys| - i
    ensures i < |keys| ==> Backwards(keys[i..])[|keys| - i - 1] == keys[i]
    ensures i == 0 ==> forall k :: k in keys ==> k in Backwards(keys[i..])
    ensures forall k :: k in Backwards(keys[i..]) ==> k in t
  {
    var rest := keys[i..];
    forall k | k in rest ensures k in Backwards(rest) {
      var j :| 0 <= j < |rest| && rest[j] == k;
      assert Backwards(rest)[|rest| - 1 - j] == k;
    }
  }

  lemma OrderedPair(t: Table, keys: seq<Key>, i: nat, j: nat)
    requires InOrder(t, keys) && i < |keys| && j < |keys|
    ensures i < j ==> t[keys[i]].time < t[keys[j]].time
  {
  }

  lemma UntilPrefix(t: Table, keys: seq<Key>, i: nat)
    requires InOrder(t, keys) && i < |keys| && forall k :: k in t <==> k in keys
    ensures Among(t, keys[..i + 1]) == Until(t, t[keys[i]].time)
  {
    forall k | k in t ensures k in keys[..i + 1] <==> t[k].time <= t[keys[i]].time {
      if k in keys[..i + 1] {
        var l :| 0 <= l < i + 1 && keys[l] == k;
        assert l < i ==> t[keys[l]].time < t[keys[i]].time;
      }
      if t[k].time <= t[keys[i]].time {
        var j :| 0 <= j < |keys| && keys[j] == k;
        OrderedPair(t, keys, i, j);
        assert keys[..i + 1][j] == k;
      }
    }
  }

  lemma CountPositive(keyvals: map<Key, Keyval>, objects: map<Obj, Table>, kinds: map<Obj, Kind>, now: nat, k: Key)
    requires Sound(keyvals, objects, kinds, now) && k in keyvals
    ensures keyvals[k].refs > 0
  {
    assert CountOk(keyvals[k], objects, k);
  }

  /** Deleting an attribute recycles its key exactly when the user has released it and nobody else holds it. */
  lemma LastReference(keyvals: map<Key, Keyval>, objects: map<Obj, Table>, kinds: map<Obj, Kind>, now: nat, o: Obj, k: Key)
    requires Sound(keyvals, objects, kinds, now) && o in objects && k in objects[o] && k in keyvals
    ensures keyvals[k].refs == 1 <==> keyvals[k].freed && Holders(objects[o := objects[o] - {k}], k) == {}
  {
    assert CountOk(keyvals[k], objects, k);
    HoldersUpdate(objects, o, objects[o] - {k}, k);
    assert |Holders(objects[o := objects[o] - {k}], k)| == 0 <==> Holders(objects[o := objects[o] - {k}], k) == {};
  }
}
