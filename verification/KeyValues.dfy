/** Valve KeyValue trees (crates/steam/src/types/key_value.rs). */
module KeyValues {
  import opened Base
  import opened LittleEndian

  type Word32 = b: Bytes | |b| == 4 witness [0, 0, 0, 0]

  type Word64 = n: nat | n < U64

  datatype KeyValue = KeyValue(key: string, value: Value)

  /** A floating-point value is its four bytes. */
  datatype Value =
    | Str(s: string)
    | Int32(i: I32)
    | Float32(raw: Word32)
    | UInt64(n: Word64)
    | Int64(l: I64)
    | Color(c: I32)
    | Pointer(p: I32)
    | Children(children: map<string, KeyValue>)

  ghost predicate EveryNode(kv: KeyValue, p: KeyValue -> bool)
  {
    p(kv) && (kv.value.Children? ==> forall k | k in kv.value.children :: EveryNode(kv.value.children[k], p))
  }

  /** Every child sits under its own key. */
  predicate KeysAgree(kv: KeyValue)
  {
    kv.value.Children? ==> forall k | k in kv.value.children :: kv.value.children[k].key == k
  }

  /** A section filled node by node: a later sibling replaces an earlier one of the same key. */
  function Inserted(children: map<string, KeyValue>, nodes: seq<KeyValue>): map<string, KeyValue>
    decreases |nodes|
  {
    if nodes == [] then children else Inserted(children[nodes[0].key := nodes[0]], nodes[1..])
  }

  /** A key is there exactly if some node has it or it was there before, and its node is the last one with the key. */
  lemma {:induction false} InsertedExactly(children: map<string, KeyValue>, nodes: seq<KeyValue>, key: string)
    ensures var m := Inserted(children, nodes);
            && (key in m <==> key in children || exists i :: 0 <= i < |nodes| && nodes[i].key == key)
            && (forall i | 0 <= i < |nodes| && nodes[i].key == key &&
                  (forall j | i < j < |nodes| :: nodes[j].key != key) :: m[key] == nodes[i])
            && (key in children && (forall i | 0 <= i < |nodes| :: nodes[i].key != key) ==> m[key] == children[key])
    decreases |nodes|
  {
    if nodes != [] {
      var rest := nodes[1..];
      InsertedExactly(children[nodes[0].key := nodes[0]], rest, key);
      assert forall i | 0 <= i < |rest| :: rest[i] == nodes[i + 1];
      assert forall i | 1 <= i < |nodes| :: nodes[i] == rest[i - 1];
    }
  }

  lemma InsertedCons(children: map<string, KeyValue>, node: KeyValue, nodes: seq<KeyValue>)
    ensures Inserted(children, [node] + nodes) == Inserted(children[node.key := node], nodes)
    ensures Inserted(children, [node]) == children[node.key := node]
  {
    assert ([node] + nodes)[1..] == nodes;
  }

  lemma {:induction false} InsertedAppend(children: map<string, KeyValue>, nodes: seq<KeyValue>, node: KeyValue)
    ensures Inserted(children, nodes + [node]) == Inserted(children, nodes)[node.key := node]
    decreases |nodes|
  {
    if nodes != [] {
      assert (nodes + [node])[1..] == nodes[1..] + [node];
      InsertedAppend(children[nodes[0].key := nodes[0]], nodes[1..], node);
    }
  }
}
