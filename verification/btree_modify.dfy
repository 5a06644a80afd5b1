/** The parts of the B-tree modify pass that exist in
    couchstore/src/btree_modify.rs: the result accumulator, the loop that
    applies the actions left over once a node's records are exhausted, the
    node-type dispatch, the flush trigger, the root decision of
    `modify_btree` and the fetch callback of the by-id index.

    `modify_node` ends in `todo!()`, its record-merge loop and its KP branch
    are empty, and `flush_mr_partial` has an empty body; none of them is
    modelled beyond the decisions the code makes before reaching them.
    Every panic of the source (an index out of range, `unwrap` of `None`,
    `panic!`, `todo!()`) is an `Err` here. */
module BtreeModify {
  import opened Results
  import opened ByteOrder
  import FileRead

  /** The kinds of node a B-tree holds. The enumeration lives in
      `btree_read`, which is not part of this model: `OtherNodeType` stands
      for any variant besides the two the modify pass names. */
  datatype NodeType = KPNode | KVNode | OtherNodeType

  /** Where a child node is stored; only the file offset is used here. */
  datatype NodePointer = NodePointer(pointer: nat)

  /** A key/value item, or a key/pointer item of an interior node. */
  datatype Node = Node(data: seq<Byte>, key: seq<Byte>, pointer: Option<NodePointer>)

  datatype ActionType = Fetch | Remove | Insert | FetchInsert

  /** One requested change; the actions of a request are sorted by key. */
  datatype Action = Action(key: seq<Byte>, data: Option<seq<Byte>>, actionType: ActionType)

  /** `CouchfileModifyResult` without its back-reference to the request. */
  datatype ModifyResult = ModifyResult(
    nodeType: NodeType,
    values: seq<Node>,
    nodeLength: nat,
    count: nat,
    pointers: seq<Node>,
    modified: bool)

  /** Every way the modify pass aborts; each is a panic in the source. */
  datatype ModifyError =
    | ActionIndexOutOfRange(index: nat, length: nat)
    | MissingInsertData(index: nat)
    | NodeReadFailed(cause: FileRead.ReadError)
    | EmptyNodeBuffer
    | InvalidNodeType(tag: Byte)
    | FlushNotImplemented
    | LastPointerMissing
    | ShortFetchedValue(length: nat)

  // ---------------------------------------------------------------------
  // The result accumulator
  // ---------------------------------------------------------------------

  /** The bytes an item adds to a node: key, value, and 5 bytes holding the
      packed 12-bit key length and 28-bit value length. */
  function ItemLength(n: Node): nat
  {
    |n.key| + |n.data| + 5
  }

  /** The total size `node_length` should account for `nodes`. */
  function ValuesLength(nodes: seq<Node>): nat
  {
    if |nodes| == 0 then 0
    else ValuesLength(nodes[..|nodes| - 1]) + ItemLength(nodes[|nodes| - 1])
  }

  /** The accounting `count` and `node_length` keep for the values list. */
  ghost predicate Accounted(r: ModifyResult)
  {
    r.count == |r.values| && r.nodeLength == ValuesLength(r.values)
  }

  /** `CouchfileModifyResult::new`: empty lists, zero counters, unmodified,
      and the node type's default (passed in, as `btree_read` is not part
      of this model). */
  function NewResult(defaultType: NodeType): (r: ModifyResult)
    ensures r.values == [] && r.pointers == [] && !r.modified
    ensures r.nodeType == defaultType
    ensures Accounted(r)
  {
    ModifyResult(defaultType, [], 0, 0, [], false)
  }

  /** The item `mr_push_item` appends: value as data, no child pointer. */
  function KvItem(key: seq<Byte>, value: seq<Byte>): Node
  {
    Node(value, key, None)
  }

  /** `mr_push_item`: appends one key/value item and accounts for it;
      nothing else in the result changes. */
  function MrPushItem(key: seq<Byte>, value: seq<Byte>, r: ModifyResult): (r': ModifyResult)
    ensures r'.values == r.values + [KvItem(key, value)]
    ensures r'.count == r.count + 1
    ensures r'.nodeLength == r.nodeLength + |key| + |value| + 5
    ensures r'.nodeType == r.nodeType && r'.pointers == r.pointers && r'.modified == r.modified
    ensures Accounted(r) ==> Accounted(r')
  {
    var r' := r.(values := r.values + [KvItem(key, value)],
                 count := r.count + 1,
                 nodeLength := r.nodeLength + |key| + |value| + 5);
    assert r'.values[..|r'.values| - 1] == r.values;
    r'
  }

  /** `maybe_pure_kv`: purging is not supported, so it is `mr_push_item`. */
  function MaybePureKv(key: seq<Byte>, value: seq<Byte>, r: ModifyResult): (r': ModifyResult)
    ensures r' == MrPushItem(key, value, r)
  {
    MrPushItem(key, value, r)
  }

  /** The length of a concatenation of items is the sum of the lengths. */
  lemma {:induction false} ValuesLengthAppend(a: seq<Node>, b: seq<Node>)
    ensures ValuesLength(a + b) == ValuesLength(a) + ValuesLength(b)
    decreases |b|
  {
    if |b| == 0 {
      assert a + b == a;
    } else {
      var b' := b[..|b| - 1];
      assert (a + b)[..|a + b| - 1] == a + b';
      ValuesLengthAppend(a, b');
    }
  }

  /** Accounting survives appending a batch of items. */
  lemma PushAllKeepsAccounting(r: ModifyResult, items: seq<Node>)
    requires Accounted(r)
    ensures Accounted(r.(values := r.values + items,
                         count := r.count + |items|,
                         nodeLength := r.nodeLength + ValuesLength(items)))
  {
    ValuesLengthAppend(r.values, items);
  }

  // ---------------------------------------------------------------------
  // The trailing action loop of `modify_node`
  // ---------------------------------------------------------------------

  predicate IsInsert(t: ActionType)
  {
    t == Insert || t == FetchInsert
  }

  /** Action `i` can be applied: it exists, and an insert carries data. */
  predicate Applicable(actions: seq<Action>, i: nat)
  {
    i < |actions| && (IsInsert(actions[i].actionType) ==> actions[i].data.Some?)
  }

  predicate AllApplicable(actions: seq<Action>, lo: nat, hi: nat)
  {
    forall i | lo <= i < hi :: Applicable(actions, i)
  }

  /** The panic raised at an action that cannot be applied. */
  function ActionError(actions: seq<Action>, i: nat): ModifyError
  {
    if i >= |actions| then ActionIndexOutOfRange(i, |actions|) else MissingInsertData(i)
  }

  /** The values the inserts among actions `lo..hi` contribute, in order. */
  function InsertedIn(actions: seq<Action>, lo: nat, hi: nat): (items: seq<Node>)
    requires AllApplicable(actions, lo, hi)
    ensures |items| <= hi - lo || hi <= lo
    decreases hi
  {
    if hi <= lo then []
    else
      assert Applicable(actions, hi - 1);
      var a := actions[hi - 1];
      InsertedIn(actions, lo, hi - 1) + (if IsInsert(a.actionType) then [KvItem(a.key, a.data.value)] else [])
  }

  /** Some action in `lo..hi` changes the tree: anything but a plain fetch. */
  predicate AnyModifying(actions: seq<Action>, lo: nat, hi: nat)
  {
    exists i | lo <= i < hi && i < |actions| :: actions[i].actionType != Fetch
  }

  /** The reference result of the trailing loop over actions `lo..hi`. */
  function AfterTrailing(actions: seq<Action>, lo: nat, hi: nat, r: ModifyResult): ModifyResult
    requires AllApplicable(actions, lo, hi)
  {
    var items := InsertedIn(actions, lo, hi);
    r.(values := r.values + items,
       count := r.count + |items|,
       nodeLength := r.nodeLength + ValuesLength(items),
       modified := r.modified || AnyModifying(actions, lo, hi))
  }

  /** One more action extends the reference result by one loop step. */
  lemma AfterTrailingStep(actions: seq<Action>, lo: nat, i: nat, r: ModifyResult)
    requires lo <= i && AllApplicable(actions, lo, i + 1)
    ensures Applicable(actions, i)
    ensures var prev := AfterTrailing(actions, lo, i, r);
            var a := actions[i];
            AfterTrailing(actions, lo, i + 1, r) ==
              if IsInsert(a.actionType) then MrPushItem(a.key, a.data.value, prev.(modified := true))
              else if a.actionType == Remove then prev.(modified := true)
              else prev
  {
    assert Applicable(actions, i);
    var a := actions[i];
    var before := InsertedIn(actions, lo, i);
    var extra: seq<Node> := if IsInsert(a.actionType) then [KvItem(a.key, a.data.value)] else [];
    assert InsertedIn(actions, lo, i + 1) == before + extra;
    ValuesLengthAppend(before, extra);
    assert r.values + (before + extra) == r.values + before + extra;
    assert AnyModifying(actions, lo, i + 1) <==> AnyModifying(actions, lo, i) || a.actionType != Fetch by {
      if a.actionType != Fetch {
        assert lo <= i < i + 1 && actions[i].actionType != Fetch;
      }
    }
  }

  /** The first action in `lo..hi` that cannot be applied is `i`. */
  predicate FirstFailureAt(actions: seq<Action>, lo: nat, hi: nat, i: nat)
  {
    lo <= i < hi && AllApplicable(actions, lo, i) && !Applicable(actions, i)
  }

  /** The trailing loop of `modify_node`: for each remaining action, a remove or an
      insert marks the result modified and an insert pushes its key and
      data; a fetch does nothing. It aborts at the first action past the
      end of the list or the first insert without data. */
  method ApplyTrailingActions(actions: seq<Action>, start: nat, end: nat, r: ModifyResult)
    returns (res: Result<ModifyResult, ModifyError>)
    ensures res.Ok? <==> AllApplicable(actions, start, end)
    ensures res.Ok? ==> res.value == AfterTrailing(actions, start, end, r)
    ensures res.Err? ==> exists i :: FirstFailureAt(actions, start, end, i) && res.error == ActionError(actions, i)
  {
    if end <= start {
      assert r.values + [] == r.values;
      return Ok(r);
    }
    var i: nat := start;
    var cur := r;
    while i < end
      invariant start <= i <= end
      invariant AllApplicable(actions, start, i)
      invariant cur == AfterTrailing(actions, start, i, r)
      decreases end - i
    {
      if i >= |actions| || (IsInsert(actions[i].actionType) && actions[i].data.None?) {
        assert FirstFailureAt(actions, start, end, i);
        return Err(ActionError(actions, i));
      }
      AfterTrailingStep(actions, start, i, r);
      var a := actions[i];
      match a.actionType {
        case Remove =>
          cur := cur.(modified := true);
        case Insert =>
          cur := MrPushItem(a.key, a.data.value, cur.(modified := true));
        case FetchInsert =>
          cur := MrPushItem(a.key, a.data.value, cur.(modified := true));
        case Fetch =>
      }
      i := i + 1;
    }
    return Ok(cur);
  }

  /** What `modify_node` has built for an absent node when it reaches the
      `todo!()` that ends it: a KV result holding exactly the inserts among
      actions `start..end`, modified when any of them is not a fetch. */
  method ModifyAbsentNode(actions: seq<Action>, start: nat, end: nat, defaultType: NodeType)
    returns (res: Result<ModifyResult, ModifyError>)
    ensures res.Ok? <==> AllApplicable(actions, start, end)
    ensures res.Ok? ==> var v := res.value;
              && v.nodeType == KVNode && v.pointers == [] && Accounted(v)
              && v.values == InsertedIn(actions, start, end)
              && (v.modified <==> AnyModifying(actions, start, end))
    ensures res.Err? ==> exists i :: FirstFailureAt(actions, start, end, i) && res.error == ActionError(actions, i)
  {
    var initial := NewResult(defaultType).(nodeType := KVNode);
    res := ApplyTrailingActions(actions, start, end, initial);
    if res.Ok? {
      PushAllKeepsAccounting(initial, InsertedIn(actions, start, end));
    }
  }

  // ---------------------------------------------------------------------
  // Node-type dispatch
  // ---------------------------------------------------------------------

  /** The tag byte that opens a stored node of each of the two kinds. */
  function TagOf(t: NodeType): Byte
    requires t != OtherNodeType
  {
    if t == KVNode then 1 else 0
  }

  /** The node load of `modify_node`: an absent node reads as no bytes; a present one is
      read and decompressed from its offset. */
  function LoadNode(file: seq<Byte>, bs: nat, codecs: FileRead.Codecs, pointer: Option<NodePointer>)
    : (r: Result<seq<Byte>, ModifyError>)
    requires bs > 1
    ensures pointer.None? ==> r == Ok([])
    ensures pointer.Some? ==>
              match FileRead.PreadCompressed(file, bs, codecs, pointer.value.pointer)
              case Ok(buf) => r == Ok(buf)
              case Err(e) => r == Err(NodeReadFailed(e))
  {
    match pointer
    case None => Ok([])
    case Some(p) =>
      match FileRead.PreadCompressed(file, bs, codecs, p.pointer)
      case Ok(buf) => Ok(buf)
      case Err(e) => Err(NodeReadFailed(e))
  }

  /** The node-type dispatch of `modify_node`: an absent node is a KV node and its (empty)
      buffer is never indexed; otherwise the first byte decides, 1 for KV
      and 0 for KP, and any other tag, or no byte at all, aborts. */
  function NodeKind(pointer: Option<NodePointer>, buf: seq<Byte>): (r: Result<NodeType, ModifyError>)
    ensures pointer.None? ==> r == Ok(KVNode)
    ensures pointer.Some? && |buf| == 0 ==> r == Err(EmptyNodeBuffer)
    ensures r.Ok? ==> r.value != OtherNodeType
    ensures pointer.Some? && r.Ok? ==> |buf| > 0 && buf[0] == TagOf(r.value)
    ensures pointer.Some? && |buf| > 0 && buf[0] > 1 ==> r == Err(InvalidNodeType(buf[0]))
  {
    if pointer.None? then Ok(KVNode)
    else if |buf| == 0 then Err(EmptyNodeBuffer)
    else if buf[0] == 1 then Ok(KVNode)
    else if buf[0] == 0 then Ok(KPNode)
    else Err(InvalidNodeType(buf[0]))
  }

  /** The kind written as a node's tag byte is the kind read back. */
  lemma NodeKindOfTag(p: NodePointer, t: NodeType, body: seq<Byte>)
    requires t != OtherNodeType
    ensures NodeKind(Some(p), [TagOf(t)] + body) == Ok(t)
  {
  }

  /** Loading and dispatching a node. */
  function DispatchNode(file: seq<Byte>, bs: nat, codecs: FileRead.Codecs, pointer: Option<NodePointer>)
    : (r: Result<NodeType, ModifyError>)
    requires bs > 1
    ensures pointer.None? ==> r == Ok(KVNode)
    ensures LoadNode(file, bs, codecs, pointer).Err? ==> r == Err(LoadNode(file, bs, codecs, pointer).error)
    ensures LoadNode(file, bs, codecs, pointer).Ok? ==> r == NodeKind(pointer, LoadNode(file, bs, codecs, pointer).value)
  {
    var buf :- LoadNode(file, bs, codecs, pointer);
    NodeKind(pointer, buf)
  }

  // ---------------------------------------------------------------------
  // Flushing and the root
  // ---------------------------------------------------------------------

  /** `maybe_flush` acts only on a modified result holding more than three
      items. */
  predicate FlushTriggered(r: ModifyResult)
  {
    r.modified && r.count > 3
  }

  /** `maybe_flush`: a triggered flush of a KV node reaches `todo!()`;
      every other case does nothing. */
  function MaybeFlush(r: ModifyResult): (res: Result<(), ModifyError>)
    ensures res.Err? <==> FlushTriggered(r) && r.nodeType == KVNode
    ensures res.Err? ==> res.error == FlushNotImplemented
  {
    if r.modified && r.count > 3 then
      match r.nodeType
      case KPNode => Ok(())
      case KVNode => Err(FlushNotImplemented)
      case OtherNodeType => Ok(())
    else Ok(())
  }

  /** `modify_btree`'s choice of the new root from the root's result. An
      unmodified root is kept. A modified one that split (more than one
      item, or pointers) is kept too: writing the new root is only a
      comment. Otherwise the pointer list is empty, so taking its last
      element aborts. */
  function RootDecision(root: Option<NodePointer>, rr: ModifyResult): (r: Result<Option<NodePointer>, ModifyError>)
    ensures r.Ok? <==> !rr.modified || rr.count > 1 || |rr.pointers| > 0
    ensures r.Ok? ==> r.value == root
    ensures r.Err? ==> r.error == LastPointerMissing && rr.pointers == []
  {
    if !rr.modified then Ok(root)
    else if rr.count > 1 || |rr.pointers| > 0 then Ok(root)
    else Err(LastPointerMissing)
  }

  // ---------------------------------------------------------------------
  // The by-id fetch callback
  // ---------------------------------------------------------------------

  /** Length of the sequence number at the start of a by-id value. */
  const SEQ_PREFIX_LEN: nat := 6

  /** `UpdateIdContext::on_fetch`: queues the removal of the by-seq entry
      whose key is the first six bytes of the fetched by-id value; a value
      shorter than that aborts. The fetched key is not used. */
  function OnFetch(seqActions: seq<Action>, key: seq<Byte>, value: seq<Byte>): (r: Result<seq<Action>, ModifyError>)
    ensures |value| < SEQ_PREFIX_LEN <==> r.Err?
    ensures r.Err? ==> r.error == ShortFetchedValue(|value|)
    ensures r.Ok? ==> |r.value| == |seqActions| + 1 && r.value[..|seqActions|] == seqActions
    ensures r.Ok? ==> r.value[|seqActions|] == Action(value[..SEQ_PREFIX_LEN], None, Remove)
  {
    if |value| < SEQ_PREFIX_LEN then Err(ShortFetchedValue(|value|))
    else Ok(seqActions + [Action(value[..SEQ_PREFIX_LEN], None, Remove)])
  }

  // ---------------------------------------------------------------------
  // Consequences for a tree whose root is absent
  // ---------------------------------------------------------------------

  /** An insert is a modifying action: actions that contribute a value
      mark the result modified. */
  lemma {:induction false} InsertsModify(actions: seq<Action>, lo: nat, hi: nat)
    requires AllApplicable(actions, lo, hi)
    ensures |InsertedIn(actions, lo, hi)| > 0 ==> AnyModifying(actions, lo, hi)
    decreases hi
  {
    if hi > lo {
      assert Applicable(actions, hi - 1);
      InsertsModify(actions, lo, hi - 1);
      if |InsertedIn(actions, lo, hi - 1)| > 0 {
        var i :| lo <= i < hi - 1 && i < |actions| && actions[i].actionType != Fetch;
        assert lo <= i < hi;
      } else if |InsertedIn(actions, lo, hi)| > 0 {
        assert actions[hi - 1].actionType != Fetch;
      }
    }
  }

  /** The state `modify_node` holds for an absent node just before its
      final `todo!()`, as the reference computes it. The source never
      returns this state: the `todo!()` always panics. */
  function AbsentNodeResult(actions: seq<Action>, start: nat, end: nat, defaultType: NodeType): ModifyResult
    requires AllApplicable(actions, start, end)
  {
    AfterTrailing(actions, start, end, NewResult(defaultType).(nodeType := KVNode))
  }

  /** Applied to the state an absent node reaches before the `todo!()`,
      `maybe_flush` would abort exactly when more than three of the
      actions are inserts. */
  lemma FlushOfAbsentNode(actions: seq<Action>, start: nat, end: nat, defaultType: NodeType)
    requires AllApplicable(actions, start, end)
    ensures MaybeFlush(AbsentNodeResult(actions, start, end, defaultType)).Err? <==>
              |InsertedIn(actions, start, end)| > 3
  {
    InsertsModify(actions, start, end);
  }

  /** The root decision of `modify_btree` applied to the state an absent
      root reaches before `modify_node`'s `todo!()`: it would keep the
      (absent) root when no action modifies or when more than one is an
      insert, and abort for a modifying batch with at most one insert. The
      source itself panics at the `todo!()` before reaching the decision. */
  lemma RootOfAbsentTree(actions: seq<Action>, defaultType: NodeType)
    requires AllApplicable(actions, 0, |actions|)
    ensures var rr := AbsentNodeResult(actions, 0, |actions|, defaultType);
            && (RootDecision(None, rr).Err? <==>
                  AnyModifying(actions, 0, |actions|) && |InsertedIn(actions, 0, |actions|)| <= 1)
            && (RootDecision(None, rr).Ok? ==> RootDecision(None, rr).value == None)
  {
  }

  /** Removals contribute no values: a batch of removals leaves the values
      untouched and marks the result modified when it is not empty. */
  lemma {:induction false} RemovalsInsertNothing(actions: seq<Action>, lo: nat, hi: nat)
    requires hi <= |actions|
    requires forall i | lo <= i < hi :: actions[i].actionType == Remove
    ensures AllApplicable(actions, lo, hi)
    ensures InsertedIn(actions, lo, hi) == []
    ensures AnyModifying(actions, lo, hi) <==> lo < hi
    decreases hi
  {
    if hi > lo {
      RemovalsInsertNothing(actions, lo, hi - 1);
      assert actions[hi - 1].actionType == Remove;
    }
  }

  /** The removal `on_fetch` queues is applicable, adds no value to the
      by-seq result and marks it modified. */
  lemma OnFetchQueuesRemoval(seqActions: seq<Action>, key: seq<Byte>, value: seq<Byte>, r: ModifyResult)
    requires OnFetch(seqActions, key, value).Ok?
    ensures var queued := OnFetch(seqActions, key, value).value;
            && AllApplicable(queued, |seqActions|, |queued|)
            && AfterTrailing(queued, |seqActions|, |queued|, r) == r.(modified := true)
  {
    var queued := OnFetch(seqActions, key, value).value;
    RemovalsInsertNothing(queued, |seqActions|, |queued|);
    assert r.values + [] == r.values;
  }
}
