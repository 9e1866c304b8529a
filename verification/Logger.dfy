// The log of operations waiting for the next synchronization: a linked list whose nodes are kept and
// overwritten after each synchronization.
module Logger {
  import opened Bytes
  import opened Wrappers
  import opened CacheModel
  import opened Sql

  datatype OperationName = SET | DEL

  /** A string copied over old contents and terminated reads back, whatever the buffer held before. */
  lemma CopiedReadsBack(buf: Text, s: Text)
    requires |s| < |buf| && NulFree(s)
    ensures CStr(Overwrite(Overwrite(buf, 0, s), |s|, [NUL])) == s
  {
    var r := Overwrite(Overwrite(buf, 0, s), |s|, [NUL]);
    assert r[..|s|] == s && r[|s|..|s| + 1] == [NUL];
    assert r == r[..|s|] + r[|s|..|s| + 1] + r[|s| + 1..];
    CStrReadsBack(s, r[|s| + 1..]);
  }

  /** A node. The key and the value are fixed-size C buffers: what follows the terminator is left over
      from earlier uses, and a deletion leaves the whole value buffer as it was. */
  class Operation {
    var name: OperationName
    var key: Text
    var value: Text
    var keySize: nat
    var valueSize: nat
    var next: Operation?

    ghost predicate Sized()
      reads `key, `value
    {
      |key| == KEY_SIZE && |value| == VALUE_SIZE
    }

    constructor ()
      ensures next == null && Sized()
    {
      name, keySize, valueSize, next := SET, 0, 0, null;
      key, value := seq(KEY_SIZE, _ => NUL), seq(VALUE_SIZE, _ => NUL);
    }

    /** The node holds the operation, with the sizes that go with it. */
    ghost predicate Holds(op: Op)
      reads `name, `key, `value, `keySize, `valueSize
    {
      && CStr(key) == op.key && keySize == |op.key|
      && match op
         case SetOp(_, v) => name == SET && CStr(value) == v && valueSize == |v|
         case DelOp(_) => name == DEL && valueSize == 0
    }

    method Write(name: OperationName, newKey: Text, newValue: Option<Text>)
      requires Sized()
      requires KeyFits(newKey) && NulFree(newKey)
      requires newValue.Some? ==> ValueFits(newValue.value) && NulFree(newValue.value)
      requires name == SET <==> newValue.Some?
      modifies this
      ensures Holds(if newValue.Some? then SetOp(newKey, newValue.value) else DelOp(newKey))
      ensures keySize == |newKey| && valueSize == if newValue.Some? then |newValue.value| else 0
      ensures next == old(next) && Sized()
    {
      hide CStr;
      hide Overwrite;
      this.name := name;
      keySize := |newKey|;
      CopiedReadsBack(key, newKey);
      key := Overwrite(Overwrite(key, 0, newKey), keySize, [NUL]);
      if newValue.Some? {
        valueSize := |newValue.value|;
        CopiedReadsBack(value, newValue.value);
        value := Overwrite(Overwrite(value, 0, newValue.value), valueSize, [NUL]);
      } else {
        valueSize := 0;
      }
    }
  }

  class Log {
    const table: Text
    var curOp: Operation?
    var firstOp: Operation?
    var sumSizeOperation: nat
    var countOperation: nat

    /** The nodes reachable from `firstOp`, in order, and the operations since the last clear. */
    ghost var nodes: seq<Operation>
    ghost var ops: seq<Op>

    /** The largest number of operations ever pending. */
    ghost var highWater: nat

    /** The list is acyclic, its nodes are those of `nodes`. */
    ghost predicate Linked()
      reads `firstOp, `nodes, nodes
    {
      && (forall i, j :: 0 <= i < j < |nodes| ==> nodes[i] != nodes[j])
      && firstOp == (if |nodes| == 0 then null else nodes[0])
      && (forall i {:trigger nodes[i].next} :: 0 <= i < |nodes| ==> nodes[i].next == if i + 1 < |nodes| then nodes[i + 1] else null)
      && (forall i :: 0 <= i < |nodes| ==> nodes[i].Sized())
    }

    /** The first `countOperation` nodes hold the operations since the last clear, `curOp` is the last
        of them, or the head when there are none. */
    ghost predicate Valid()
      reads this, nodes
    {
      && Linked()
      && |table| <= KEY_SIZE
      && countOperation == |ops| <= |nodes| == highWater <= MAX_COUNT_OPERATION
      && curOp == (if |nodes| == 0 then null else nodes[if |ops| == 0 then 0 else |ops| - 1])
      && (forall i :: 0 <= i < |ops| ==> nodes[i].Holds(ops[i]))
      && (forall i :: 0 <= i < |ops| ==> OpFits(ops[i]))
      && sumSizeOperation == SumSize(table, ops)
    }

    constructor (table: Text)
      requires |table| <= KEY_SIZE
      ensures Valid() && ops == [] && nodes == [] && this.table == table
    {
      this.table := table;
      curOp, firstOp := null, null;
      sumSizeOperation, countOperation := 0, 0;
      nodes, ops, highWater := [], [], 0;
    }

    /** A new node behind the last one. */
    method AppendNode(last: Operation)
      requires Linked() && nodes != [] && last == nodes[|nodes| - 1]
      modifies this`curOp, this`nodes, last`next
      ensures Linked() && fresh(curOp) && nodes == old(nodes) + [curOp]
    {
      hide Operation.Holds;
      hide Operation.Sized;
      curOp := new Operation();
      last.next := curOp;
      nodes := nodes + [curOp];
    }

    /** Moves `curOp` to the node for the next operation, making it only if the list is too short. */
    method Advance()
      requires Valid() && countOperation < MAX_COUNT_OPERATION
      modifies this`curOp, this`firstOp, this`nodes, nodes
      ensures Linked()
      ensures |ops| < |nodes| && curOp == nodes[|ops|]
      ensures |nodes| == if |ops| < |old(nodes)| then |old(nodes)| else |ops| + 1
      ensures old(nodes) <= nodes
      ensures forall i :: |old(nodes)| <= i < |nodes| ==> fresh(nodes[i])
      ensures forall i :: 0 <= i < |ops| ==> nodes[i].Holds(ops[i])
    {
      hide Operation.Holds;
      hide Operation.Sized;
      SumSizeBounds(table, ops);
      if curOp == null {
        curOp := new Operation();
        if firstOp == null {
          firstOp := curOp;
        }
        nodes := [curOp];
      } else if curOp.next == null && sumSizeOperation != 0 {
        AppendNode(curOp);
      } else if sumSizeOperation != 0 {
        curOp := curOp.next;
      }
    }

    /** Writes the operation into the current node; the nodes before it are not touched. */
    method FillCurrent(name: OperationName, key: Text, value: Option<Text>)
      requires Linked() && |ops| < |nodes| && curOp == nodes[|ops|]
      requires forall i :: 0 <= i < |ops| ==> nodes[i].Holds(ops[i])
      requires KeyFits(key) && NulFree(key)
      requires value.Some? ==> ValueFits(value.value) && NulFree(value.value)
      requires name == SET <==> value.Some?
      modifies curOp
      ensures Linked()
      ensures forall i :: 0 <= i < |ops| ==> nodes[i].Holds(ops[i])
      ensures curOp.Holds(if value.Some? then SetOp(key, value.value) else DelOp(key))
      ensures curOp.keySize == |key| && curOp.valueSize == if value.Some? then |value.value| else 0
    {
      hide Operation.Sized;
      hide Operation.Holds;
      curOp.Write(name, key, value);
    }

    /** Counts the operation now held by the current node, and the bytes its statement will need. */
    method CountCurrent(name: OperationName, ghost op: Op)
      requires Linked() && |table| <= KEY_SIZE
      requires countOperation == |ops| < |nodes| == highWater <= MAX_COUNT_OPERATION && curOp == nodes[|ops|]
      requires forall i :: 0 <= i < |ops| ==> nodes[i].Holds(ops[i])
      requires forall i :: 0 <= i < |ops| ==> OpFits(ops[i])
      requires curOp.Holds(op) && OpFits(op) && sumSizeOperation == SumSize(table, ops)
      requires op.SetOp? <==> name == SET
      requires curOp.keySize == |op.key| && curOp.valueSize == if op.SetOp? then |op.value| else 0
      modifies `sumSizeOperation, `countOperation, `ops
      ensures Valid() && ops == old(ops) + [op]
    {
      hide Log.Linked;
      hide Operation.Holds;
      hide SumSize;
      sumSizeOperation := sumSizeOperation + curOp.keySize + curOp.valueSize;
      sumSizeOperation := sumSizeOperation + |table|;
      if name == SET {
        sumSizeOperation := sumSizeOperation + UPDATE_REQV_SIZE;
      } else {
        sumSizeOperation := sumSizeOperation + DELETE_REQV_SIZE;
      }
      countOperation := countOperation + 1;
      SumSizeOneMore(table, ops, op);
      ops := ops + [op];
    }

    /** The appending part of `add_log`. */
    method Append(name: OperationName, key: Text, value: Option<Text>)
      requires Valid() && countOperation < MAX_COUNT_OPERATION
      requires key != [] && KeyFits(key) && NulFree(key)
      requires value.Some? ==> value.value != [] && ValueFits(value.value) && NulFree(value.value)
      requires name == SET <==> value.Some?
      modifies this, nodes
      ensures Valid()
      ensures ops == old(ops) + [if value.Some? then SetOp(key, value.value) else DelOp(key)]
      ensures highWater == if |ops| <= old(highWater) then old(highWater) else |ops|
      ensures old(nodes) <= nodes
      ensures forall i :: |old(nodes)| <= i < |nodes| ==> fresh(nodes[i])
    {
      hide Log.Linked;
      hide Operation.Holds;
      hide SumSize;
      Advance();
      highWater := |nodes|;
      FillCurrent(name, key, value);
      CountCurrent(name, if value.Some? then SetOp(key, value.value) else DelOp(key));
    }

    /** Forgets the operations and keeps the nodes. */
    method ClearLog()
      requires Valid()
      modifies this
      ensures Valid()
      ensures ops == [] && nodes == old(nodes) && highWater == old(highWater)
      ensures sumSizeOperation == 0 && countOperation == 0 && curOp == firstOp
    {
      hide Operation.Holds;
      hide Operation.Sized;
      sumSizeOperation := 0;
      countOperation := 0;
      curOp := firstOp;
      ops := [];
    }
  }
}
