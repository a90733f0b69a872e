/**
 * The tagged-union value (VAL), its default operations (VAL_OPS_template) and
 * the insertion-ordered key/value container (OBJECT) built from such values.
 *
 * Only the default operations table is ever installed, so every operation
 * here is the default implementation, called directly. A Val owns what it
 * holds: its Repr is its own footprint together with the footprints of every
 * key and value stored in its object, and those footprints are pairwise
 * disjoint, which is what the ownership-transferring insertion promises.
 */
module Values {
  import opened Results
  import opened Text

  /** enum VAL_types. */
  datatype ValType = Undefined | Int32 | String | Object

  /** OBJECT_KV: one stored pair. */
  datatype KeyVal = KeyVal(key: Val, val: Val)

  /** The capacity after the backing array of an object is exhausted: 4 at first, then doubled. */
  function NextCapacity(cap: nat): (c: nat)
    ensures c > cap
    ensures cap == 0 ==> c == 4
    ensures cap > 0 ==> c == 2 * cap
  {
    if cap > 0 then 2 * cap else 4
  }

  /** The capacities an object can reach: 0, 4, 8, 16, ... */
  predicate IsCapacity(cap: nat)
    decreases cap
  {
    cap == 0 || cap == 4 || (cap > 4 && cap % 2 == 0 && IsCapacity(cap / 2))
  }

  /** Growing from a reachable capacity reaches another one, and at least doubles the room. */
  lemma {:induction false} NextCapacityReachable(cap: nat)
    requires IsCapacity(cap)
    ensures IsCapacity(NextCapacity(cap)) && NextCapacity(cap) >= 2 * cap && NextCapacity(cap) >= 4
  {
    if cap > 0 {
      var c := 2 * cap;
      assert c / 2 == cap && c % 2 == 0;
    }
  }

  /**
   * The shape of an object's storage: len <= cap, cap is one of the reachable
   * capacities, storage exists exactly when a pair does, and beyond the first
   * four slots fewer than half of the slots are ever unused.
   */
  predicate StorageShape(len: nat, cap: nat) {
    len <= cap && IsCapacity(cap) && (len == 0 <==> cap == 0) && (cap > 4 ==> 2 * len > cap)
  }

  /** Growing the storage when it is exhausted keeps its shape. */
  lemma {:induction false} GrowKeepsShape(len: nat, cap: nat)
    requires StorageShape(len, cap) && len == cap
    ensures StorageShape(len + 1, NextCapacity(cap))
  {
    if cap > 0 {
      var c := 2 * cap;
      assert c / 2 == cap && c % 2 == 0;
      assert IsCapacity(c) == IsCapacity(cap);
    }
  }

  /** OBJECT: the pairs live in slots[..len] (OBJECT's `array` member); it has cap slots. */
  class Obj {
    var slots: array<KeyVal>
    var len: nat
    var cap: nat

    /** OBJECT_new: an empty object without storage. */
    constructor ()
      ensures len == 0 && cap == 0 && slots.Length == 0 && fresh(slots)
    {
      slots := new KeyVal[0];
      len := 0;
      cap := 0;
    }

    /**
     * The growing step of move_from_key_val: when the storage is full, cap
     * becomes NextCapacity(cap) and xrealloc moves the stored pairs into new
     * storage of that size.
     */
    method Grow(filler: KeyVal)
      requires len == cap == slots.Length
      modifies this
      ensures len == old(len) && cap == NextCapacity(old(cap)) && slots.Length == cap
      ensures fresh(slots) && slots[..len] == old(slots[..len])
    {
      var c := NextCapacity(cap);
      var grown := new KeyVal[c](_ => filler);
      forall j | 0 <= j < len {
        grown[j] := slots[j];
      }
      slots := grown;
      cap := c;
    }

    /**
     * The appending branch of move_from_key_val on the storage: grow it when
     * len has reached cap, then put kv at index len and count it.
     */
    method Append(kv: KeyVal)
      requires len <= cap == slots.Length
      modifies this, slots
      ensures len == old(len) + 1 && len <= cap == slots.Length
      ensures slots[..len] == old(slots[..len]) + [kv]
      ensures old(len) == old(cap) ==> cap == NextCapacity(old(cap)) && fresh(slots)
      ensures old(len) < old(cap) ==> cap == old(cap) && slots == old(slots)
    {
      if len == cap {
        Grow(kv);
      }
      slots[len] := kv;
      len := len + 1;
    }
  }

  /** The objects owned through one stored pair. */
  ghost function Footprint(kv: KeyVal): set<object>
    reads kv.key, kv.val
  {
    kv.key.Repr + kv.val.Repr
  }

  /**
   * A stored pair is owned within region: its key and value are alive, lie
   * inside region with their footprints, and share nothing with each other.
   */
  ghost predicate Owned(kv: KeyVal, region: set<object>)
    reads region
  {
    kv.key in region && kv.val in region && kv.key.Repr <= region && kv.val.Repr <= region &&
    kv.key in kv.key.Repr && kv.val in kv.val.Repr && kv.key.Repr !! kv.val.Repr &&
    kv.key.refCount >= 1 && kv.val.refCount >= 1
  }

  /**
   * The pairs of an object are owned within region with well-formed keys and
   * values, no two of them share an object, and no two of their keys are
   * equal under IsEqual.
   */
  ghost predicate PairsOwned(kvs: seq<KeyVal>, region: set<object>)
    reads region
    decreases region, 3
  {
    AllOwned(kvs, region) &&
    (forall j, k :: 0 <= j < |kvs| && 0 <= k < |kvs| && j != k ==> Footprint(kvs[j]) !! Footprint(kvs[k])) &&
    (forall j, k :: 0 <= j < |kvs| && 0 <= k < |kvs| && j != k ==> IsEqual(kvs[j].key, kvs[k].key) == False)
  }

  /** VAL: a type tag, a reference count and one payload per type. */
  class Val {
    var typeId: ValType
    var refCount: nat
    var int32Data: int32
    var stringData: string
    var objectData: Obj?
    ghost var Repr: set<object>

    /**
     * The value is well formed: an OBJECT value has its object and storage
     * in the shape StorageShape describes, and every stored key and value is
     * alive, well formed and owned by this value alone, with distinct keys.
     */
    ghost predicate Valid()
      reads this, Repr
      decreases Repr, 1
    {
      this in Repr &&
      (typeId == Object ==>
        objectData != null && objectData in Repr && objectData.slots in Repr &&
        objectData.cap == objectData.slots.Length &&
        StorageShape(objectData.len, objectData.cap) &&
        PairsOwned(objectData.slots[..objectData.len], Repr - {this, objectData, objectData.slots}))
    }

    /** The stored pairs of an OBJECT value, in storage order. */
    ghost function Entries(): (kvs: seq<KeyVal>)
      requires Valid() && typeId == Object
      reads this, Repr
      ensures |kvs| == objectData.len
    {
      objectData.slots[..objectData.len]
    }

    /** What an OBJECT value stores lies outside itself, its object and its storage. */
    ghost function Owning(): set<object>
      requires Valid() && typeId == Object
      reads this, Repr
    {
      Repr - {this, objectData, objectData.slots}
    }

    /** VAL_new: an UNDEFINED value with one reference and empty payloads. */
    constructor ()
      ensures Valid() && fresh(Repr) && Repr == {this}
      ensures typeId == Undefined && refCount == 1
      ensures int32Data == 0 && stringData == "" && objectData == null
    {
      typeId := Undefined;
      refCount := 1;
      int32Data := 0;
      stringData := "";
      objectData := null;
      Repr := {this};
    }

    /**
     * VAL_default_set_type: the type can be set from UNDEFINED, or again to
     * the type already set; any other change is UNIMPLEMENTED. Setting OBJECT
     * always installs a fresh empty object, also when the value already was
     * an OBJECT (the old object is then leaked, not deleted).
     */
    method SetType(t: ValType) returns (e: Error)
      requires Valid()
      modifies this
      ensures Valid()
      ensures e == (if old(typeId) == Undefined || old(typeId) == t then Ok else Unimplemented)
      ensures e == Unimplemented ==> unchanged(this)
      ensures e == Ok ==> typeId == t
      ensures refCount == old(refCount) && int32Data == old(int32Data) && stringData == old(stringData)
      ensures e == Ok && t == Object ==>
        fresh(objectData) && fresh(objectData.slots) && objectData.len == 0 && objectData.cap == 0 &&
        Repr == {this, objectData, objectData.slots}
      ensures !(e == Ok && t == Object) ==> objectData == old(objectData) && Repr == old(Repr)
    {
      if typeId != Undefined && typeId != t {
        return Unimplemented;
      }
      typeId := t;
      if t == Object {
        var o := new Obj();
        objectData := o;
        Repr := {this, o, o.slots};
      }
      return Ok;
    }

    /**
     * VAL_default_copy_from_int32: an INT32 value stores the number, a STRING
     * value gets its decimal text (which always fits MAX_INTSTRING_LEN, so the
     * abort after snprintf is unreachable); other types are INVALID_TYPE.
     */
    method CopyFromInt32(source: int32) returns (e: Error)
      requires Valid()
      modifies this
      ensures Valid()
      ensures typeId == old(typeId) && refCount == old(refCount) && objectData == old(objectData) && Repr == old(Repr)
      ensures e == (if typeId == Int32 || typeId == String then Ok else InvalidType)
      ensures typeId == Int32 ==> int32Data == source && stringData == old(stringData)
      ensures typeId == String ==>
        stringData == DecimalText(source) && |stringData| < MaxIntStringLen && int32Data == old(int32Data)
      ensures e == InvalidType ==> unchanged(this)
    {
      match typeId {
        case Int32 =>
          int32Data := source;
        case String =>
          var text := DecimalText(source);
          DecimalTextFits(source);
          assert |text| < MaxIntStringLen;
          stringData := text;
        case _ =>
          return InvalidType;
      }
      return Ok;
    }

    /**
     * VAL_default_copy_from_string: an INT32 value takes the strtol reading
     * of s when ParseInt32 accepts it and is otherwise left alone with
     * INVALID_INTEGER; a STRING value gets a copy of s; other types are
     * INVALID_TYPE. The ERANGE test is subsumed by the INT_MIN..INT_MAX test
     * because the conversion is over unbounded integers.
     */
    method CopyFromString(s: string) returns (e: Error)
      requires Valid()
      modifies this
      ensures Valid()
      ensures typeId == old(typeId) && refCount == old(refCount) && objectData == old(objectData) && Repr == old(Repr)
      ensures typeId == Int32 ==>
        e == (if ParseInt32(s).Some? then Ok else InvalidInteger) &&
        int32Data == (if ParseInt32(s).Some? then ParseInt32(s).value else old(int32Data)) &&
        stringData == old(stringData)
      ensures typeId == String ==> e == Ok && stringData == s && int32Data == old(int32Data)
      ensures typeId != Int32 && typeId != String ==> e == InvalidType
      ensures e != Ok ==> unchanged(this)
    {
      match typeId {
        case Int32 =>
          var lval := Strtol(s);
          if !StopsAtEndOrSpace(s, lval.end) || !(lval.value <= IntMax && lval.value >= IntMin) {
            return InvalidInteger;
          }
          int32Data := lval.value;
        case String =>
          stringData := s;
        case _ =>
          return InvalidType;
      }
      return Ok;
    }

    /**
     * VAL_delete: drops one reference; when none is left the payload is
     * released, which for an OBJECT value deletes every stored key and value
     * once (OBJECT_delete). Freed memory is not modelled: a released value
     * keeps its fields.
     */
    method Delete()
      requires Valid() && refCount >= 1
      modifies Repr
      decreases Repr, 1
      ensures refCount == old(refCount) - 1
      ensures typeId == old(typeId) && int32Data == old(int32Data) && stringData == old(stringData)
      ensures objectData == old(objectData) && Repr == old(Repr)
      ensures old(refCount) > 1 ==> unchanged(Repr - {this}) && Valid()
      ensures old(refCount) == 1 && typeId != Object ==> unchanged(Repr - {this})
      ensures old(refCount) == 1 && typeId == Object ==>
        unchanged(objectData) && unchanged(objectData.slots) &&
        forall j :: 0 <= j < objectData.len ==>
          objectData.slots[j].key.refCount == old(objectData.slots[j].key.refCount) - 1 &&
          objectData.slots[j].val.refCount == old(objectData.slots[j].val.refCount) - 1
    {
      ghost var kvs: seq<KeyVal> := [];
      ghost var region: set<object> := {};
      if typeId == Object {
        kvs := Entries();
        region := Owning();
      }
      refCount := refCount - 1;
      if refCount == 0 && typeId == Object {
        var o := objectData;
        DeleteObject(o, region, kvs);
        assert forall j :: 0 <= j < o.len ==> o.slots[j] == kvs[j];
      }
    }

    /**
     * VAL_default_move_from_key_val: stores the pair in an OBJECT value,
     * taking over the caller's references (no count is incremented). When a
     * stored key IsEqual calls equal to key, the first such pair has its key
     * and value deleted and is overwritten in place; otherwise the pair is
     * appended, growing the storage to NextCapacity when it is full. Other
     * types are INVALID_TYPE. Key and value must be distinct values not
     * already owned by this one, which is what moving them in means.
     */
    method MoveFromKeyVal(key: Val, val: Val) returns (e: Error)
      requires Valid() && key.Valid() && val.Valid() && key.refCount >= 1 && val.refCount >= 1
      requires Repr !! key.Repr && Repr !! val.Repr && key.Repr !! val.Repr
      modifies Repr
      ensures Valid()
      ensures e == (if typeId == Object then Ok else InvalidType)
      ensures typeId == old(typeId) && refCount == old(refCount) && objectData == old(objectData)
      ensures e == InvalidType ==> Repr == old(Repr) && unchanged(old(Repr))
      ensures e == Ok ==> key.Repr + val.Repr <= Repr <= old(Repr) + {objectData.slots} + key.Repr + val.Repr
      ensures e == Ok && old(FindKey(Entries(), key, 0)) < old(objectData.len) ==>
        var i := old(FindKey(Entries(), key, 0));
        Entries() == old(Entries())[i := KeyVal(key, val)] &&
        objectData.cap == old(objectData.cap) && objectData.slots == old(objectData.slots) &&
        old(Entries()[i].key).refCount == old(Entries()[i].key.refCount) - 1 &&
        old(Entries()[i].val).refCount == old(Entries()[i].val.refCount) - 1 &&
        unchanged(old(Owning() - Footprint(Entries()[i])))
      ensures e == Ok && old(FindKey(Entries(), key, 0)) == old(objectData.len) ==>
        Entries() == old(Entries()) + [KeyVal(key, val)] && unchanged(old(Owning()))
      ensures e == Ok && old(FindKey(Entries(), key, 0)) == old(objectData.len) == old(objectData.cap) ==>
        objectData.cap == NextCapacity(old(objectData.cap)) && fresh(objectData.slots)
      ensures e == Ok && old(FindKey(Entries(), key, 0)) == old(objectData.len) < old(objectData.cap) ==>
        objectData.cap == old(objectData.cap) && objectData.slots == old(objectData.slots)
    {
      if typeId != Object {
        return InvalidType;
      }
      ghost var kvs := Entries();
      var i := FindPair(key);
      assert i == old(FindKey(Entries(), key, 0)) && kvs == old(Entries());
      if i < objectData.len {
        ReplacePair(i, key, val);
      } else {
        AppendPair(key, val);
      }
      return Ok;
    }

    /**
     * The search loop of move_from_key_val: the index of the first stored
     * key IsEqual calls equal to key, or len when there is none.
     */
    method FindPair(key: Val) returns (i: nat)
      requires Valid() && typeId == Object
      ensures i == FindKey(Entries(), key, 0)
      ensures i <= objectData.len
      ensures forall j :: 0 <= j < i ==> IsEqual(objectData.slots[j].key, key) == False
      ensures i < objectData.len ==> IsEqual(objectData.slots[i].key, key) == Ok
    {
      var o := objectData;
      i := 0;
      while i < o.len
        invariant 0 <= i <= o.len
        invariant FindKey(Entries(), key, 0) == FindKey(Entries(), key, i)
      {
        if ResultOk(IsEqual(o.slots[i].key, key)) {
          break;
        }
        i := i + 1;
      }
    }

    /**
     * The replacing branch of move_from_key_val: the key and value stored at
     * i are deleted, which also ends this value's ownership of them, and the
     * slot is overwritten with the new pair.
     */
    method ReplacePair(i: nat, key: Val, val: Val)
      requires Valid() && typeId == Object && i < objectData.len
      requires key.Valid() && val.Valid() && key.refCount >= 1 && val.refCount >= 1
      requires Repr !! key.Repr && Repr !! val.Repr && key.Repr !! val.Repr
      requires IsEqual(objectData.slots[i].key, key) == Ok
      modifies Repr
      ensures Valid()
      ensures typeId == old(typeId) && refCount == old(refCount) && objectData == old(objectData)
      ensures objectData.slots == old(objectData.slots) && objectData.cap == old(objectData.cap)
      ensures key.Repr + val.Repr <= Repr <= old(Repr) + key.Repr + val.Repr
      ensures old(Footprint(Entries()[i])) !! Repr
      ensures Entries() == old(Entries())[i := KeyVal(key, val)]
      ensures old(Entries()[i].key).refCount == old(Entries()[i].key.refCount) - 1
      ensures old(Entries()[i].val).refCount == old(Entries()[i].val.refCount) - 1
      ensures unchanged(old(Owning() - Footprint(Entries()[i])))
    {
      var o := objectData;
      var kv := o.slots[i];
      var kv' := KeyVal(key, val);
      ghost var kvs := Entries();
      ghost var region := Owning();
      ghost var region' := (region - Footprint(kv)) + key.Repr + val.Repr;
      assert PairsOwned(kvs, region);
      PairsOwnedReplace(kvs, i, kv', region, region');
      DeletePair(kv, region);
      o.slots[i] := kv';
      Repr := {this, o, o.slots} + region';
      assert o.slots[..o.len] == kvs[i := kv'];
      assert Repr - {this, o, o.slots} == region';
    }

    /** The appending branch of move_from_key_val: storage grows when full, then the pair goes at len. */
    method AppendPair(key: Val, val: Val)
      requires Valid() && typeId == Object
      requires key.Valid() && val.Valid() && key.refCount >= 1 && val.refCount >= 1
      requires Repr !! key.Repr && Repr !! val.Repr && key.Repr !! val.Repr
      requires forall j :: 0 <= j < objectData.len ==> IsEqual(objectData.slots[j].key, key) == False
      modifies this, objectData, objectData.slots
      ensures Valid()
      ensures typeId == old(typeId) && refCount == old(refCount) && objectData == old(objectData)
      ensures key.Repr + val.Repr <= Repr <= old(Repr) + {objectData.slots} + key.Repr + val.Repr
      ensures Entries() == old(Entries()) + [KeyVal(key, val)]
      ensures old(objectData.len) == old(objectData.cap) ==>
        objectData.cap == NextCapacity(old(objectData.cap)) && fresh(objectData.slots)
      ensures old(objectData.len) < old(objectData.cap) ==>
        objectData.cap == old(objectData.cap) && objectData.slots == old(objectData.slots)
    {
      var o := objectData;
      var n := o.len;
      var kv := KeyVal(key, val);
      ghost var kvs := Entries();
      ghost var region := Owning();
      ghost var region' := region + key.Repr + val.Repr;
      assert PairsOwned(kvs, region);
      InsertLast(kvs, kv, region, region');
      if n == o.cap {
        GrowKeepsShape(n, o.cap);
      }
      o.Append(kv);
      Repr := {this, o, o.slots} + region';
      assert Repr - {this, o, o.slots} == region';
    }

    /**
     * VAL_default_debug_print: renders the value as Render describes, an
     * OBJECT value pair by pair with a recursive call for each key and value;
     * it always reports OK.
     */
    method DebugPrint() returns (e: Error, out: string)
      requires Valid()
      decreases Repr, 1
      ensures e == Ok && out == Render(this)
    {
      match typeId {
        case Int32 =>
          out := DecimalText(int32Data);
        case String =>
          out := "\"" + stringData + "\"";
        case Object =>
          out := DebugPrintObject();
        case Undefined =>
          out := "\"undefined type\"";
      }
      e := Ok;
    }

    /** The OBJECT branch of debug_print: the pairs in storage order, between braces. */
    method DebugPrintObject() returns (out: string)
      requires Valid() && typeId == Object
      decreases Repr, 0
      ensures out == "{" + RenderPairs(Entries(), objectData.len, Owning()) + "}"
    {
      var o := objectData;
      ghost var kvs := Entries();
      ghost var region := Owning();
      assert PairsOwned(kvs, region);
      out := "{";
      var i := 0;
      while i < o.len
        invariant 0 <= i <= o.len
        invariant out == "{" + RenderPairs(kvs, i, region)
      {
        if i > 0 {
          out := out + ", ";
        }
        assert o.slots[i] == kvs[i];
        var p := DebugPrintPair(o.slots[i], region);
        RenderPairsNext(kvs, i, region);
        out := out + p;
        i := i + 1;
      }
      out := out + "}";
    }
  }

  /** One pair as debug_print writes it: the key, a colon and a space, then the value. */
  method DebugPrintPair(kv: KeyVal, ghost region: set<object>) returns (out: string)
    requires Owned(kv, region) && kv.key.Valid() && kv.val.Valid()
    decreases region, 2
    ensures out == PairText(kv, region)
  {
    var _, k := kv.key.DebugPrint();
    var _, v := kv.val.DebugPrint();
    out := k + ": " + v;
  }

  /**
   * The text debug_print writes for a value: INT32 as "%d", STRING between
   * double quotes without escaping, OBJECT as its pairs between braces, and
   * anything else as the quoted words "undefined type".
   */
  ghost function Render(v: Val): (r: string)
    requires v.Valid()
    reads v.Repr
    decreases v.Repr, 1, 0
  {
    match v.typeId
    case Int32 => DecimalText(v.int32Data)
    case String => "\"" + v.stringData + "\""
    case Object =>
      assert PairsOwned(v.Entries(), v.Owning());
      "{" + RenderPairs(v.Entries(), v.objectData.len, v.Owning()) + "}"
    case Undefined => "\"undefined type\""
  }

  /** The text of one stored pair: key, a colon and a space, then the value. */
  ghost function PairText(kv: KeyVal, region: set<object>): string
    requires Owned(kv, region) && kv.key.Valid() && kv.val.Valid()
    reads region
    decreases region, 2, 0
  {
    Render(kv.key) + ": " + Render(kv.val)
  }

  /** Every pair of kvs is owned within region, with a well-formed key and value. */
  ghost predicate AllOwned(kvs: seq<KeyVal>, region: set<object>)
    reads region
    decreases region, 2
  {
    forall j :: 0 <= j < |kvs| ==> Owned(kvs[j], region) && kvs[j].key.Valid() && kvs[j].val.Valid()
  }

  /** The texts of the first n pairs in order, separated by a comma and a space. */
  ghost function RenderPairs(kvs: seq<KeyVal>, n: nat, region: set<object>): string
    requires n <= |kvs| && AllOwned(kvs, region)
    reads region
    decreases region, 4, n
  {
    if n == 0 then ""
    else if n == 1 then PairText(kvs[0], region)
    else RenderPairs(kvs, n - 1, region) + ", " + PairText(kvs[n - 1], region)
  }

  /** One more pair extends the text by a separator, when pairs came before, and that pair's text. */
  lemma RenderPairsNext(kvs: seq<KeyVal>, n: nat, region: set<object>)
    requires n < |kvs| && AllOwned(kvs, region)
    ensures RenderPairs(kvs, n + 1, region) == RenderPairs(kvs, n, region) + (if n > 0 then ", " else "") + PairText(kvs[n], region)
  {
  }

  /**
   * OBJECT_delete: deletes every stored key and value once, in storage order.
   * The ghost parameters name the stored pairs and the region they own.
   */
  method DeleteObject(o: Obj, ghost region: set<object>, ghost kvs: seq<KeyVal>)
    requires o.len <= o.slots.Length && o.slots[..o.len] == kvs
    requires o !in region && o.slots !in region
    requires PairsOwned(kvs, region)
    modifies region
    decreases region, 2
    ensures forall j :: 0 <= j < |kvs| ==>
      kvs[j].key.refCount == old(kvs[j].key.refCount) - 1 && kvs[j].val.refCount == old(kvs[j].val.refCount) - 1
  {
    var i := 0;
    ghost var rest := region;
    while i < o.len
      invariant 0 <= i <= o.len && rest <= region && unchanged(rest)
      invariant forall j :: i <= j < |kvs| ==> old(Footprint(kvs[j])) <= rest
      invariant forall j :: 0 <= j < i ==>
        kvs[j].key.refCount == old(kvs[j].key.refCount) - 1 && kvs[j].val.refCount == old(kvs[j].val.refCount) - 1 &&
        kvs[j].key !in rest && kvs[j].val !in rest
    {
      var kv := o.slots[i];
      assert kv == kvs[i];
      ghost var f := old(Footprint(kv));
      assert old(Owned(kv, region) && kv.key.Valid() && kv.val.Valid());
      assert Owned(kv, rest) && kv.key.Valid() && kv.val.Valid();
      assert forall j :: i < j < |kvs| ==> old(Footprint(kvs[j])) !! f;
      DeletePair(kv, rest);
      rest := rest - f;
      i := i + 1;
    }
  }

  /** The two deletes OBJECT_delete issues for one stored pair: its key, then its value. */
  method DeletePair(kv: KeyVal, ghost region: set<object>)
    requires Owned(kv, region) && kv.key.Valid() && kv.val.Valid()
    modifies Footprint(kv)
    decreases region, 1
    ensures kv.key.refCount == old(kv.key.refCount) - 1 && kv.val.refCount == old(kv.val.refCount) - 1
  {
    kv.key.Delete();
    kv.val.Delete();
  }

  /**
   * Taking one pair out of an object's pairs: that pair is owned within the
   * region, and the others are owned within what is left of it.
   */
  lemma PairsOwnedRemove(kvs: seq<KeyVal>, i: nat, region: set<object>)
    requires PairsOwned(kvs, region) && i < |kvs|
    ensures Owned(kvs[i], region) && kvs[i].key.Valid() && kvs[i].val.Valid() && Footprint(kvs[i]) <= region
    ensures PairsOwned(kvs[..i] + kvs[i + 1..], region - Footprint(kvs[i]))
  {
    var f := Footprint(kvs[i]);
    var rest := kvs[..i] + kvs[i + 1..];
    assert forall j :: 0 <= j < |rest| ==> rest[j] == kvs[if j < i then j else j + 1];
    forall j | 0 <= j < |rest|
      ensures Owned(rest[j], region - f) && rest[j].key.Valid() && rest[j].val.Valid()
    {
      var k := if j < i then j else j + 1;
      assert Owned(kvs[k], region) && Footprint(kvs[k]) !! f;
    }
    assert AllOwned(rest, region - f);
    forall j, k | 0 <= j < |rest| && 0 <= k < |rest| && j != k
      ensures Footprint(rest[j]) !! Footprint(rest[k]) && IsEqual(rest[j].key, rest[k].key) == False
    {
      assert rest[j] == kvs[if j < i then j else j + 1];
      assert rest[k] == kvs[if k < i then k else k + 1];
    }
  }

  /**
   * Overwriting the pair at i with one whose key IsEqual calls equal to the
   * old key, and which owns nothing of the region: the pairs are owned within
   * the region without the old pair's footprint and with the new one's.
   */
  lemma PairsOwnedReplace(kvs: seq<KeyVal>, i: nat, kv: KeyVal, region: set<object>, region': set<object>)
    requires PairsOwned(kvs, region) && i < |kvs| && IsEqual(kvs[i].key, kv.key) == Ok
    requires kv.key.Valid() && kv.val.Valid() && kv.key.refCount >= 1 && kv.val.refCount >= 1
    requires region !! kv.key.Repr && region !! kv.val.Repr && kv.key.Repr !! kv.val.Repr
    requires region' == (region - Footprint(kvs[i])) + kv.key.Repr + kv.val.Repr
    ensures Owned(kvs[i], region) && kvs[i].key.Valid() && kvs[i].val.Valid() && Footprint(kvs[i]) <= region
    ensures PairsOwned(kvs[i := kv], region')
  {
    var f := Footprint(kvs[i]);
    var rest := kvs[..i] + kvs[i + 1..];
    PairsOwnedRemove(kvs, i, region);
    forall j | 0 <= j < |rest|
      ensures IsEqual(rest[j].key, kv.key) == False
    {
      IsEqualCongruent(kvs[i].key, kv.key, rest[j].key);
    }
    PairsOwnedInsert(rest, i, kv, region - f, region');
    assert rest[..i] + [kv] + rest[i..] == kvs[i := kv];
  }

  /**
   * Putting a pair that owns nothing of the region and whose key equals no
   * stored key at index i: the pairs are owned within any region covering
   * both.
   */
  lemma PairsOwnedInsert(kvs: seq<KeyVal>, i: nat, kv: KeyVal, region: set<object>, region': set<object>)
    requires PairsOwned(kvs, region) && i <= |kvs|
    requires Owned(kv, region') && kv.key.Valid() && kv.val.Valid()
    requires Footprint(kv) !! region && region <= region'
    requires forall j :: 0 <= j < |kvs| ==> IsEqual(kvs[j].key, kv.key) == False
    ensures PairsOwned(kvs[..i] + [kv] + kvs[i..], region')
  {
    var s := kvs[..i] + [kv] + kvs[i..];
    InsertedOwned(kvs, i, kv, region, region');
    InsertedApart(kvs, i, kv, region);
    assert forall j :: 0 <= j < |s| ==> Owned(s[j], region') && s[j].key.Valid() && s[j].val.Valid();
  }

  /** Appending a pair whose key equals no stored key keeps the pairs owned, within the wider region. */
  lemma InsertLast(kvs: seq<KeyVal>, kv: KeyVal, region: set<object>, region': set<object>)
    requires PairsOwned(kvs, region)
    requires Owned(kv, region') && kv.key.Valid() && kv.val.Valid()
    requires Footprint(kv) !! region && region <= region'
    requires forall j :: 0 <= j < |kvs| ==> IsEqual(kvs[j].key, kv.key) == False
    ensures PairsOwned(kvs + [kv], region')
  {
    PairsOwnedInsert(kvs, |kvs|, kv, region, region');
    assert kvs[..|kvs|] + [kv] + kvs[|kvs|..] == kvs + [kv];
  }

  /** The pairs after an insertion at i are each owned within the wider region. */
  lemma InsertedOwned(kvs: seq<KeyVal>, i: nat, kv: KeyVal, region: set<object>, region': set<object>)
    requires PairsOwned(kvs, region) && i <= |kvs|
    requires Owned(kv, region') && kv.key.Valid() && kv.val.Valid() && region <= region'
    ensures var s := kvs[..i] + [kv] + kvs[i..];
      forall j :: 0 <= j < |s| ==> Owned(s[j], region') && s[j].key.Valid() && s[j].val.Valid()
  {
    var s := kvs[..i] + [kv] + kvs[i..];
    forall j | 0 <= j < |s|
      ensures Owned(s[j], region') && s[j].key.Valid() && s[j].val.Valid()
    {
      if j != i {
        var k := if j < i then j else j - 1;
        assert s[j] == kvs[k];
        assert Owned(kvs[k], region) && kvs[k].key.Valid() && kvs[k].val.Valid();
      }
    }
  }

  /** After an insertion at i no two pairs share an object and no two keys are equal. */
  lemma InsertedApart(kvs: seq<KeyVal>, i: nat, kv: KeyVal, region: set<object>)
    requires PairsOwned(kvs, region) && i <= |kvs|
    requires Footprint(kv) !! region
    requires forall j :: 0 <= j < |kvs| ==> IsEqual(kvs[j].key, kv.key) == False
    ensures var s := kvs[..i] + [kv] + kvs[i..];
      (forall j, k :: 0 <= j < |s| && 0 <= k < |s| && j != k ==> Footprint(s[j]) !! Footprint(s[k])) &&
      (forall j, k :: 0 <= j < |s| && 0 <= k < |s| && j != k ==> IsEqual(s[j].key, s[k].key) == False)
  {
    var s := kvs[..i] + [kv] + kvs[i..];
    forall j, k | 0 <= j < |s| && 0 <= k < |s| && j != k
      ensures Footprint(s[j]) !! Footprint(s[k]) && IsEqual(s[j].key, s[k].key) == False
    {
      var j' := if j < i then j else j - 1;
      var k' := if k < i then k else k - 1;
      if j == i {
        assert s[k] == kvs[k'] && Owned(kvs[k'], region);
        IsEqualSymmetric(kv.key, s[k].key);
      } else if k == i {
        assert s[j] == kvs[j'] && Owned(kvs[j'], region);
      } else {
        assert s[j] == kvs[j'] && s[k] == kvs[k'];
      }
    }
  }

  /** copy_from_int32 then debug_print of an INT32 value prints text copy_from_string reads back. */
  lemma RenderInt32RoundTrip(v: Val)
    requires v.Valid() && v.typeId == Int32
    ensures ParseInt32(Render(v)) == Some(v.int32Data)
  {
    ParseDecimalText(v.int32Data);
  }

  /** A STRING value prints as its text between double quotes, so stripping them gives the text back. */
  lemma RenderStringQuoted(v: Val)
    requires v.Valid() && v.typeId == String
    ensures var r := Render(v); |r| >= 2 && r[0] == '"' && r[|r| - 1] == '"' && r[1..|r| - 1] == v.stringData
  {
  }

  /** An OBJECT value with no pairs prints as "{}". */
  lemma RenderEmptyObject(v: Val)
    requires v.Valid() && v.typeId == Object && v.objectData.len == 0
    ensures Render(v) == "{}"
  {
  }

  /** An OBJECT value with one pair prints as "{" key ": " value "}". */
  lemma RenderSinglePair(v: Val)
    requires v.Valid() && v.typeId == Object && v.objectData.len == 1
    ensures v.Entries()[0].key.Valid() && v.Entries()[0].val.Valid()
    ensures Render(v) == "{" + Render(v.Entries()[0].key) + ": " + Render(v.Entries()[0].val) + "}"
  {
    var kvs, region := v.Entries(), v.Owning();
    assert PairsOwned(kvs, region);
    assert RenderPairs(kvs, 1, region) == PairText(kvs[0], region);
  }

  /**
   * VAL_default_is_equal: values of different types are UNIMPLEMENTED, as are
   * OBJECT and UNDEFINED values; INT32 values compare their numbers and
   * STRING values their text, OK when equal and FALSE otherwise.
   */
  function DefaultIsEqual(v1: Val, v2: Val): (r: Error)
    reads v1, v2
    ensures r == Unimplemented <==> v1.typeId != v2.typeId || v1.typeId == Object || v1.typeId == Undefined
    ensures r == Ok <==>
      v1.typeId == v2.typeId &&
      ((v1.typeId == Int32 && v1.int32Data == v2.int32Data) || (v1.typeId == String && v1.stringData == v2.stringData))
  {
    if v1.typeId != v2.typeId then Unimplemented
    else match v1.typeId
      case Int32 => if v1.int32Data != v2.int32Data then False else Ok
      case String => if v1.stringData != v2.stringData then False else Ok
      case _ => Unimplemented
  }

  /**
   * VAL_is_equal: asks each value's own equality about the other and reports
   * OK only when both say OK, FALSE otherwise; never UNIMPLEMENTED.
   */
  function IsEqual(v1: Val, v2: Val): (r: Error)
    reads v1, v2
    ensures r == Ok || r == False
  {
    if ResultOk(DefaultIsEqual(v1, v2)) && ResultOk(DefaultIsEqual(v2, v1)) then Ok else False
  }

  /** The keys of the pairs, in order. */
  function Keys(kvs: seq<KeyVal>): (ks: seq<Val>)
    ensures |ks| == |kvs| && forall j :: 0 <= j < |kvs| ==> ks[j] == kvs[j].key
  {
    if kvs == [] then [] else [kvs[0].key] + Keys(kvs[1..])
  }

  /** The values stored in an object, in order. */
  function Vals(kvs: seq<KeyVal>): (vs: seq<Val>)
    ensures |vs| == |kvs| && forall j :: 0 <= j < |kvs| ==> vs[j] == kvs[j].val
  {
    if kvs == [] then [] else [kvs[0].val] + Vals(kvs[1..])
  }

  /**
   * Every stored key and value of an OBJECT value lies in what it owns, and
   * outside the footprint of every other stored pair.
   */
  lemma EntriesApart(v: Val)
    requires v.Valid() && v.typeId == Object
    ensures forall j :: 0 <= j < v.objectData.len ==>
      v.Entries()[j].key in v.Owning() && v.Entries()[j].val in v.Owning()
    ensures forall j, k :: 0 <= j < v.objectData.len && 0 <= k < v.objectData.len && j != k ==>
      v.Entries()[j].key !in Footprint(v.Entries()[k]) && v.Entries()[j].val !in Footprint(v.Entries()[k])
  {
    var kvs, region := v.Entries(), v.Owning();
    assert PairsOwned(kvs, region);
    forall j, k | 0 <= j < |kvs| && 0 <= k < |kvs| && j != k
      ensures kvs[j].key !in Footprint(kvs[k]) && kvs[j].val !in Footprint(kvs[k])
    {
      assert Owned(kvs[j], region) && Footprint(kvs[j]) !! Footprint(kvs[k]);
    }
  }

  /**
   * What every OBJECT value keeps between operations: at most cap pairs in
   * storage of cap slots, the storage shape of StorageShape, and no two
   * stored keys that IsEqual calls equal.
   */
  lemma ObjectInvariant(v: Val)
    requires v.Valid() && v.typeId == Object
    ensures v.objectData.len <= v.objectData.cap == v.objectData.slots.Length
    ensures StorageShape(v.objectData.len, v.objectData.cap)
    ensures forall j, k :: 0 <= j < v.objectData.len && 0 <= k < v.objectData.len && j != k ==>
      IsEqual(v.Entries()[j].key, v.Entries()[k].key) == False
  {
    assert PairsOwned(v.Entries(), v.Owning());
  }

  /** The index of the first pair at or after i whose key IsEqual calls equal to key, or |kvs| when none is. */
  ghost function FindKey(kvs: seq<KeyVal>, key: Val, i: nat): (k: nat)
    requires i <= |kvs|
    reads Keys(kvs), key
    ensures i <= k <= |kvs|
    ensures forall j :: i <= j < k ==> IsEqual(kvs[j].key, key) == False
    ensures k < |kvs| ==> IsEqual(kvs[k].key, key) == Ok
    decreases |kvs| - i
  {
    if i == |kvs| then i
    else if IsEqual(kvs[i].key, key) == Ok then i
    else FindKey(kvs, key, i + 1)
  }

  /** IsEqual is OK exactly for two INT32 values with the same number or two STRING values with the same text. */
  lemma IsEqualMeaning(v1: Val, v2: Val)
    ensures IsEqual(v1, v2) == Ok <==>
      v1.typeId == v2.typeId &&
      ((v1.typeId == Int32 && v1.int32Data == v2.int32Data) || (v1.typeId == String && v1.stringData == v2.stringData))
  {
  }

  /** Asking in both directions makes IsEqual symmetric. */
  lemma IsEqualSymmetric(v1: Val, v2: Val)
    ensures IsEqual(v1, v2) == IsEqual(v2, v1)
  {
  }

  /** Values IsEqual calls equal compare alike with every third value. */
  lemma IsEqualCongruent(v1: Val, v2: Val, w: Val)
    requires IsEqual(v1, v2) == Ok
    ensures IsEqual(w, v1) == IsEqual(w, v2)
  {
  }

  /** An INT32 value and a STRING value are never comparable by the default equality. */
  lemma MixedTypesUnimplemented(v1: Val, v2: Val)
    requires v1.typeId == Int32 && v2.typeId == String
    ensures DefaultIsEqual(v1, v2) == Unimplemented && IsEqual(v1, v2) == False
  {
  }
}
