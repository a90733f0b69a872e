/**
 * The program's entry point (main): it reads its arguments in pairs, makes an
 * INT32 key from the first argument of each pair and a STRING value from the
 * second, inserts them into one top-level OBJECT value, and prints that value.
 *
 * The process arguments become the parameter args (argv without the program
 * name) and standard output becomes the returned Outcome. Expected describes
 * the whole run over an association list of int keys and string values, and
 * Run is proved to produce exactly that.
 */
module Driver {
  import opened Results
  import opened Text
  import opened Values

  /**
   * What the program writes before it ends: the rendered object and a
   * newline, or the diagnostic result_unwrap writes before it calls abort().
   */
  datatype Outcome = Printed(text: string) | Aborted(text: string)

  /** The pairs of the top-level object, as the driver builds them: an int key and a string value each. */
  type Pairs = seq<(int32, string)>

  /** The index of the first pair at or after i whose key is k, or |m| when there is none. */
  function FindModel(m: Pairs, k: int32, i: nat): (r: nat)
    requires i <= |m|
    ensures i <= r <= |m|
    ensures forall j :: i <= j < r ==> m[j].0 != k
    ensures r < |m| ==> m[r].0 == k
    decreases |m| - i
  {
    if i == |m| then i else if m[i].0 == k then i else FindModel(m, k, i + 1)
  }

  /** move_from_key_val on the association list: replace the pair with key k in place, or append. */
  function InsertModel(m: Pairs, k: int32, v: string): Pairs
  {
    var i := FindModel(m, k, 0);
    if i < |m| then m[i := (k, v)] else m + [(k, v)]
  }

  /** No two pairs have the same key. */
  predicate DistinctKeys(m: Pairs) {
    forall j, l :: 0 <= j < |m| && 0 <= l < |m| && j != l ==> m[j].0 != m[l].0
  }

  /**
   * Inserting keeps the keys distinct; afterwards k maps to v, every other
   * key keeps its value and position, and the list grows by one pair exactly
   * when k was not there before.
   */
  lemma InsertModelMeaning(m: Pairs, k: int32, v: string)
    requires DistinctKeys(m)
    ensures var r := InsertModel(m, k, v);
      DistinctKeys(r) &&
      (|r| == |m| <==> exists j :: 0 <= j < |m| && m[j].0 == k) &&
      (|r| == |m| + 1 <==> forall j :: 0 <= j < |m| ==> m[j].0 != k) &&
      (exists j :: 0 <= j < |r| && r[j] == (k, v)) &&
      (forall j :: 0 <= j < |m| && m[j].0 != k ==> r[j] == m[j])
  {
    var i := FindModel(m, k, 0);
    var r := InsertModel(m, k, v);
    if i < |m| {
      assert r[i] == (k, v);
      forall j, l | 0 <= j < |r| && 0 <= l < |r| && j != l
        ensures r[j].0 != r[l].0
      {
        if j != i && l != i {
          assert r[j] == m[j] && r[l] == m[l];
        }
      }
    } else {
      assert r[|m|] == (k, v);
    }
  }

  /** The text debug_print writes for one pair of the driver: the int key, then the quoted value. */
  function EntryText(kv: (int32, string)): string {
    DecimalText(kv.0) + ": " + "\"" + kv.1 + "\""
  }

  /** The texts of the first n pairs, separated by a comma and a space. */
  function PairsText(m: Pairs, n: nat): string
    requires n <= |m|
  {
    if n == 0 then ""
    else if n == 1 then EntryText(m[0])
    else PairsText(m, n - 1) + ", " + EntryText(m[n - 1])
  }

  /** The diagnostic result_unwrap writes for a result with no value before it aborts. */
  function AbortText(e: Error): string
  {
    ResultPrintNoVal(e) + "\n"
  }

  /** The diagnostic written before the abort identifies the error that caused it. */
  lemma AbortTextInjective(e1: Error, e2: Error)
    requires AbortText(e1) == AbortText(e2)
    ensures e1 == e2
  {
    var t1, t2 := AbortText(e1), AbortText(e2);
    assert t1[..|t1| - 1] == ResultPrintNoVal(e1);
    assert t2[..|t2| - 1] == ResultPrintNoVal(e2);
    ResultPrintNoValInjective(e1, e2);
  }

  /**
   * The run from the pair starting at args[i] on, with the object holding m:
   * a key that copy_from_string rejects aborts, a trailing unpaired argument
   * is ignored, and at the end the object is printed.
   */
  function ExpectedFrom(args: seq<string>, i: nat, m: Pairs): Outcome
    decreases |args| - i
  {
    if i + 1 >= |args| then Printed("{" + PairsText(m, |m|) + "}\n")
    else match ParseInt32(args[i])
      case None => Aborted(AbortText(InvalidInteger))
      case Some(k) => ExpectedFrom(args, i + 2, InsertModel(m, k, args[i + 1]))
  }

  /** Taking one pair whose key text is a valid int: the run continues with the pair inserted. */
  lemma ExpectedStep(args: seq<string>, i: nat, m: Pairs)
    requires i + 1 < |args| && ParseInt32(args[i]).Some?
    ensures ExpectedFrom(args, i, m) == ExpectedFrom(args, i + 2, InsertModel(m, ParseInt32(args[i]).value, args[i + 1]))
  {
  }

  /** The whole run of the program over its arguments. */
  function Expected(args: seq<string>): Outcome {
    ExpectedFrom(args, 0, [])
  }

  /** Without a pair of arguments the empty object is printed; a trailing unpaired argument is ignored. */
  lemma ExampleNoPairs()
    ensures Expected([]) == Printed("{}\n")
    ensures Expected(["7"]) == Printed("{}\n")
  {
  }

  /** Two pairs with different keys are printed in the order they were given. */
  lemma ExpectedTwoKeys(args: seq<string>, k1: int32, k2: int32)
    requires |args| == 4 && ParseInt32(args[0]) == Some(k1) && ParseInt32(args[2]) == Some(k2)
    ensures k1 != k2 ==>
      Expected(args) == Printed("{" + (EntryText((k1, args[1])) + ", " + EntryText((k2, args[3]))) + "}\n")
    ensures k1 == k2 ==> Expected(args) == Printed("{" + EntryText((k1, args[3])) + "}\n")
  {
    var m1 := InsertModel([], k1, args[1]);
    assert m1 == [(k1, args[1])];
    var m2 := InsertModel(m1, k2, args[3]);
    ExpectedStep(args, 0, []);
    ExpectedStep(args, 2, m1);
    assert Expected(args) == Printed("{" + PairsText(m2, |m2|) + "}\n");
    if k1 != k2 {
      assert FindModel(m1, k2, 0) == 1;
      assert m2 == [(k1, args[1]), (k2, args[3])];
      assert PairsText(m2, 2) == EntryText((k1, args[1])) + ", " + EntryText((k2, args[3]));
    } else {
      assert m2 == [(k1, args[3])];
      assert PairsText(m2, 1) == EntryText((k1, args[3]));
    }
  }

  /** Pairs with new keys are printed in the order they were given. */
  lemma ExampleInsertionOrder()
    ensures Expected(["2", "x", "1", "y"]) == Printed("{2: \"x\", 1: \"y\"}\n")
  {
    assert ParseInt32("2") == Some(2) && ParseInt32("1") == Some(1) by {
      ParseDecimalText(1);
      ParseDecimalText(2);
      assert DecimalText(1) == "1" && DecimalText(2) == "2";
    }
    ExpectedTwoKeys(["2", "x", "1", "y"], 2, 1);
    InsertionOrderText();
  }

  /** The text of the insertion-order example, entry by entry. */
  lemma InsertionOrderText()
    ensures "{" + (EntryText((2, "x")) + ", " + EntryText((1, "y"))) + "}\n" == "{2: \"x\", 1: \"y\"}\n"
  {
    assert DecimalText(1) == "1" && DecimalText(2) == "2";
  }

  /** A repeated key keeps its first position and takes the last value given for it. */
  lemma ExampleRepeatedKey()
    ensures Expected(["1", "a", "1", "b"]) == Printed("{1: \"b\"}\n")
  {
    assert ParseInt32("1") == Some(1) by {
      ParseDecimalText(1);
      assert DecimalText(1) == "1";
    }
    ExpectedTwoKeys(["1", "a", "1", "b"], 1, 1);
    RepeatedKeyText();
  }

  /** The text of the repeated-key example. */
  lemma RepeatedKeyText()
    ensures "{" + EntryText((1, "b")) + "}\n" == "{1: \"b\"}\n"
  {
    assert DecimalText(1) == "1";
  }

  /** A key that is not a number aborts the run with the invalid-integer diagnostic. */
  lemma ExampleNonNumericKey()
    ensures Expected(["a", "1"]) == Aborted("{error: \"invalid integer\"}\n")
  {
    assert ParseInt32("a") == None by {
      ParseExampleNoDigits();
    }
    assert ResultErrorStr(InvalidInteger) == "invalid integer";
    assert AbortText(InvalidInteger) == "{error: \"invalid integer\"}\n";
  }

  /** The stored pairs hold exactly the int keys and string values of m, in order. */
  ghost predicate Corresponds(kvs: seq<KeyVal>, m: Pairs)
    reads Keys(kvs), Vals(kvs)
  {
    |kvs| == |m| &&
    forall j :: 0 <= j < |kvs| ==>
      kvs[j].key.typeId == Int32 && kvs[j].key.int32Data == m[j].0 &&
      kvs[j].val.typeId == String && kvs[j].val.stringData == m[j].1
  }

  /** Over INT32 keys, the search of move_from_key_val finds the same index as the search on the list. */
  lemma {:induction false} FindKeyCorresponds(kvs: seq<KeyVal>, m: Pairs, key: Val, i: nat)
    requires Corresponds(kvs, m) && key.typeId == Int32 && i <= |kvs|
    ensures FindKey(kvs, key, i) == FindModel(m, key.int32Data, i)
    decreases |kvs| - i
  {
    if i < |kvs| {
      IsEqualMeaning(kvs[i].key, key);
      FindKeyCorresponds(kvs, m, key, i + 1);
    }
  }

  /** The first n stored pairs render as the first n pairs of m. */
  lemma {:induction false} RenderPairsCorresponds(kvs: seq<KeyVal>, m: Pairs, n: nat, region: set<object>)
    requires AllOwned(kvs, region) && Corresponds(kvs, m) && n <= |kvs|
    ensures RenderPairs(kvs, n, region) == PairsText(m, n)
    decreases n
  {
    if n > 0 {
      assert PairText(kvs[n - 1], region) == EntryText(m[n - 1]);
      RenderPairsCorresponds(kvs, m, n - 1, region);
    }
  }

  /** An OBJECT value whose pairs correspond to m renders as m's pairs between braces. */
  lemma RenderCorresponds(v: Val, m: Pairs)
    requires v.Valid() && v.typeId == Object && Corresponds(v.Entries(), m)
    ensures Render(v) == "{" + PairsText(m, |m|) + "}"
  {
    assert PairsOwned(v.Entries(), v.Owning());
    RenderPairsCorresponds(v.Entries(), m, |m|, v.Owning());
  }

  /**
   * main: the top-level OBJECT value takes every pair of arguments in turn,
   * and is then printed, followed by a newline, and deleted.
   */
  method Run(args: seq<string>) returns (out: Outcome)
    ensures out == Expected(args)
  {
    var top := NewTop();
    var e;
    ghost var m: Pairs := [];
    var i := 0;
    while i + 1 < |args|
      invariant i <= |args|
      invariant top.Valid() && top.typeId == Object && fresh(top.Repr) && top.refCount == 1
      invariant Corresponds(top.Entries(), m)
      invariant ExpectedFrom(args, i, m) == Expected(args)
    {
      ghost var m0 := m;
      e, m := Step(top, args[i], args[i + 1], m);
      if e != Ok {
        return Aborted(AbortText(e));
      }
      ExpectedStep(args, i, m0);
      i := i + 2;
    }
    var text := PrintAndDelete(top, m);
    out := Printed(text + "\n");
  }

  /** The start of main: a new value made an OBJECT, which holds no pairs. */
  method NewTop() returns (top: Val)
    ensures fresh(top.Repr) && top.Valid() && top.typeId == Object && top.refCount == 1
    ensures top.Entries() == []
  {
    top := new Val();
    var e := top.SetType(Object);
  }

  /**
   * One iteration of main's loop: make the pair from ks and vs and move it
   * into the top-level object. Any new object the object then owns is fresh.
   */
  method Step(top: Val, ks: string, vs: string, ghost m: Pairs) returns (e: Error, ghost m': Pairs)
    requires top.Valid() && top.typeId == Object && top.refCount == 1 && Corresponds(top.Entries(), m)
    modifies top.Repr
    ensures e == (if ParseInt32(ks).Some? then Ok else InvalidInteger)
    ensures top.Valid() && top.typeId == Object && top.refCount == 1
    ensures fresh(top.Repr - old(top.Repr))
    ensures e == Ok ==> m' == InsertModel(m, ParseInt32(ks).value, vs) && Corresponds(top.Entries(), m')
  {
    var key, val;
    e, key, val := MakePair(ks, vs, top.Repr);
    if e != Ok {
      return e, m;
    }
    m' := InsertPair(top, key, val, m);
  }

  /**
   * The body of main's loop up to the insertion: a new INT32 key holding the
   * number ks denotes and a new STRING value holding vs. When copy_from_string
   * rejects ks, the error is what result_unwrap aborts with. The new values
   * are none of the objects already in use.
   */
  method MakePair(ks: string, vs: string, ghost used: set<object>) returns (e: Error, key: Val, val: Val)
    ensures fresh(key) && fresh(val) && key != val && key !in used && val !in used
    ensures e == (if ParseInt32(ks).Some? then Ok else InvalidInteger)
    ensures key.Valid() && key.Repr == {key} && key.refCount == 1 && key.typeId == Int32
    ensures val.Valid() && val.Repr == {val} && val.refCount == 1
    ensures e == Ok ==> key.int32Data == ParseInt32(ks).value && val.typeId == String && val.stringData == vs
  {
    key := new Val();
    val := new Val();
    e := key.SetType(Int32);
    e := key.CopyFromString(ks);
    if e != Ok {
      return;
    }
    e := val.SetType(String);
    e := val.CopyFromString(vs);
  }

  /** The end of main: debug_print of the top-level value, then VAL_delete of it. */
  method PrintAndDelete(top: Val, ghost m: Pairs) returns (text: string)
    requires top.Valid() && top.typeId == Object && top.refCount == 1 && Corresponds(top.Entries(), m)
    modifies top.Repr
    ensures text == "{" + PairsText(m, |m|) + "}"
    ensures top.refCount == 0
  {
    var _, t := top.DebugPrint();
    RenderCorresponds(top, m);
    text := t;
    top.Delete();
  }

  /** One step of main's loop: the pair moves into the top-level object, which then corresponds to the list with it inserted. */
  method InsertPair(top: Val, key: Val, val: Val, ghost m: Pairs) returns (ghost m': Pairs)
    requires top.Valid() && top.typeId == Object && Corresponds(top.Entries(), m)
    requires key.Valid() && val.Valid() && key.refCount == 1 && val.refCount == 1
    requires key.Repr == {key} && val.Repr == {val}
    requires key.typeId == Int32 && val.typeId == String
    requires top.Repr !! {key, val} && key != val
    modifies top.Repr
    ensures top.Valid() && top.typeId == Object && top.refCount == old(top.refCount)
    ensures top.Repr <= old(top.Repr) + {top.objectData.slots, key, val}
    ensures top.objectData.slots == old(top.objectData.slots) || fresh(top.objectData.slots)
    ensures m' == InsertModel(m, key.int32Data, val.stringData) && Corresponds(top.Entries(), m')
  {
    var k, v := key.int32Data, val.stringData;
    ghost var kvs := top.Entries();
    ghost var idx := FindKey(kvs, key, 0);
    FindKeyCorresponds(kvs, m, key, 0);
    EntriesApart(top);
    var e := top.MoveFromKeyVal(key, val);
    m' := InsertModel(m, k, v);
    forall j | 0 <= j < |kvs| && j != idx
      ensures kvs[j].key.typeId == Int32 && kvs[j].key.int32Data == m[j].0
      ensures kvs[j].val.typeId == String && kvs[j].val.stringData == m[j].1
    {
    }
  }
}
