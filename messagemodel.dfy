/** The client's list of chat messages (MessageModel): items kept in
    ascending order of message id, day-change markers inserted between
    messages of different days, a buffer of backlog messages waiting to be
    merged in, and the per-buffer counters of backlog still expected.
    Timestamps are milliseconds since the epoch. */
module Messages {

  /** Milliseconds in a day. */
  const DayInMsecs: int := 86400000

  /** The model's columns that items answer for. */
  const TimestampColumn: int := 0
  const ContentsColumn: int := 2

  datatype MsgType = Plain | Error | DayChange | OtherType(code: int)

  /** A message as the client receives it. */
  datatype Message = Message(msgId: int, bufferId: int, kind: MsgType, timestamp: int, flags: int, contents: string)

  /** One row of the model: the message and the buffer it is redirected to. */
  datatype Item = Item(msg: Message, redirectedTo: int)

  /** A message id is valid when it is positive. */
  predicate IsValid(m: Message) {
    m.msgId > 0
  }

  /** A default-constructed message: id 0, so not valid. */
  const NoMessage: Message := Message(0, 0, Plain, 0, 0, "")

  /** Message::ChangeOfDay(ts) with the id of the message before it. */
  function DayChangeMessage(ts: int, msgId: int): Message {
    Message(msgId, 0, DayChange, ts, 0, "")
  }

  function NewItem(m: Message): Item {
    Item(m, 0)
  }

  function NewItems(ms: seq<Message>): (r: seq<Item>)
    ensures |r| == |ms| && forall i :: 0 <= i < |ms| ==> r[i] == NewItem(ms[i])
  {
    seq(|ms|, i requires 0 <= i < |ms| => NewItem(ms[i]))
  }

  /** The day of a timestamp, `ms / DAY_IN_MSECS` on 64-bit integers, which
      truncates toward zero. */
  function DayOf(ms: int): (r: int)
    ensures ms >= 0 ==> 0 <= r * DayInMsecs <= ms < r * DayInMsecs + DayInMsecs
    ensures ms < 0 ==> r * DayInMsecs - DayInMsecs < ms <= r * DayInMsecs <= 0
  {
    if ms >= 0 then ms / DayInMsecs else -((-ms) / DayInMsecs)
  }

  // ---------------------------------------------------------------------
  // Order

  predicate SortedItems(s: seq<Item>) {
    forall i, j :: 0 <= i < j < |s| ==> s[i].msg.msgId <= s[j].msg.msgId
  }

  predicate SortedMessages(s: seq<Message>) {
    forall i, j :: 0 <= i < j < |s| ==> s[i].msgId <= s[j].msgId
  }

  predicate DescendingMessages(s: seq<Message>) {
    forall i, j :: 0 <= i < j < |s| ==> s[i].msgId >= s[j].msgId
  }

  /** MessageModelItem::operator< */
  predicate ItemLess(a: Item, b: Item) {
    a.msg.msgId < b.msg.msgId
  }

  /** MessageModelItem::operator== */
  predicate ItemEqual(a: Item, b: Item) {
    a.msg.msgId == b.msg.msgId
  }

  /** MessageModelItem::operator> */
  predicate ItemGreater(a: Item, b: Item) {
    a.msg.msgId > b.msg.msgId
  }

  /** The item comparisons order by message id alone: exactly one holds,
      and `>` is `<` reversed. */
  lemma ItemComparisonsTrichotomy(a: Item, b: Item)
    ensures ItemLess(a, b) || ItemEqual(a, b) || ItemGreater(a, b)
    ensures !(ItemLess(a, b) && ItemEqual(a, b)) && !(ItemLess(a, b) && ItemGreater(a, b))
    ensures !(ItemEqual(a, b) && ItemGreater(a, b))
    ensures ItemGreater(a, b) <==> ItemLess(b, a)
    ensures ItemEqual(a, b) <==> ItemEqual(b, a)
  {}

  /** The list is in order exactly when no item is greater than the next. */
  lemma {:induction false} SortedIffNoDescent(s: seq<Item>)
    ensures SortedItems(s) <==> forall i :: 0 <= i < |s| - 1 ==> !ItemGreater(s[i], s[i + 1])
    decreases |s|
  {
    if |s| > 1 && forall i :: 0 <= i < |s| - 1 ==> !ItemGreater(s[i], s[i + 1]) {
      SortedIffNoDescent(s[1..]);
      assert forall i :: 0 <= i < |s[1..]| - 1 ==> !ItemGreater(s[1..][i], s[1..][i + 1]) by {
        forall i | 0 <= i < |s[1..]| - 1 ensures !ItemGreater(s[1..][i], s[1..][i + 1]) {
          assert s[1..][i] == s[i + 1] && s[1..][i + 1] == s[i + 2];
        }
      }
      forall i, j | 0 <= i < j < |s| ensures s[i].msg.msgId <= s[j].msg.msgId {
        if i > 0 {
          assert s[i] == s[1..][i - 1] && s[j] == s[1..][j - 1];
        } else {
          assert s[1] == s[1..][0] && s[j] == s[1..][j - 1];
        }
      }
    }
  }

  /** Joining two ordered lists around a common bound keeps the order. */
  lemma SortedJoin(a: seq<Item>, b: seq<Item>, bound: int)
    requires SortedItems(a) && SortedItems(b)
    requires forall i :: 0 <= i < |a| ==> a[i].msg.msgId <= bound
    requires forall j :: 0 <= j < |b| ==> bound <= b[j].msg.msgId
    ensures SortedItems(a + b)
  {
    forall i, j | 0 <= i < j < |a + b| ensures (a + b)[i].msg.msgId <= (a + b)[j].msg.msgId {
      if j < |a| {
      } else if i >= |a| {
        assert (a + b)[i] == b[i - |a|] && (a + b)[j] == b[j - |a|];
      } else {
        assert (a + b)[i] == a[i] && (a + b)[j] == b[j - |a|];
      }
    }
  }

  /** std::sort on message lists, with Message::operator< comparing ids:
      an ordered permutation. Messages with equal ids keep their order. */
  function SortById(s: seq<Message>): (r: seq<Message>)
    ensures SortedMessages(r) && multiset(r) == multiset(s) && |r| == |s|
  {
    if |s| == 0 then []
    else
      assert s == [s[0]] + s[1..];
      InsertById(s[0], SortById(s[1..]))
  }

  function InsertById(m: Message, s: seq<Message>): (r: seq<Message>)
    requires SortedMessages(s)
    ensures SortedMessages(r) && multiset(r) == multiset(s) + multiset{m} && |r| == |s| + 1
    ensures r[0] == m || (|s| > 0 && r[0] == s[0])
  {
    if |s| == 0 then [m]
    else if m.msgId <= s[0].msgId then [m] + s
    else
      assert s == [s[0]] + s[1..];
      var rest := InsertById(m, s[1..]);
      assert s[0].msgId <= rest[0].msgId;
      assert forall j :: 0 <= j < |rest| ==> s[0].msgId <= rest[j].msgId;
      [s[0]] + rest
  }

  /** Sorting valid messages gives valid messages. */
  lemma SortKeepsValid(s: seq<Message>)
    requires forall i :: 0 <= i < |s| ==> IsValid(s[i])
    ensures forall i :: 0 <= i < |SortById(s)| ==> IsValid(SortById(s)[i])
  {
    var r := SortById(s);
    forall i | 0 <= i < |r| ensures IsValid(r[i]) {
      assert r[i] in multiset(r);
      assert r[i] in multiset(s);
    }
  }

  /** Sorting keeps exactly the messages it is given. */
  lemma SortKeepsMessages(s: seq<Message>, m: Message)
    ensures m in SortById(s) <==> m in s
  {
    assert m in SortById(s) <==> m in multiset(SortById(s));
  }

  // ---------------------------------------------------------------------
  // Finding a message's place (indexForId)

  /** The index of the first item whose id is at least `id`: where a
      message with that id goes. */
  function LowerBound(items: seq<Item>, id: int): (r: nat)
    ensures r <= |items|
    ensures 0 < r ==> items[r - 1].msg.msgId < id
    ensures r < |items| ==> id <= items[r].msg.msgId
  {
    if |items| == 0 || id <= items[0].msg.msgId then 0 else 1 + LowerBound(items[1..], id)
  }

  /** Every item before the place of `id` has a smaller id. */
  lemma {:induction false} LowerBoundBelow(items: seq<Item>, id: int)
    ensures forall i :: 0 <= i < LowerBound(items, id) ==> items[i].msg.msgId < id
  {
    if |items| > 0 && items[0].msg.msgId < id {
      LowerBoundBelow(items[1..], id);
      assert forall i :: 1 <= i < LowerBound(items, id) ==> items[i] == items[1..][i - 1];
    }
  }

  /** The place of a message is the only index with smaller ids before it
      and a greater or equal id at it. */
  lemma {:induction false} LowerBoundUnique(items: seq<Item>, id: int, r: nat)
    requires r <= |items|
    requires forall i :: 0 <= i < r ==> items[i].msg.msgId < id
    requires r < |items| ==> id <= items[r].msg.msgId
    ensures r == LowerBound(items, id)
  {
    if r > 0 {
      LowerBoundUnique(items[1..], id, r - 1);
    }
  }

  /** A smaller id never goes after a larger one. */
  lemma LowerBoundMonotone(items: seq<Item>, id1: int, id2: int)
    requires id1 <= id2
    ensures LowerBound(items, id1) <= LowerBound(items, id2)
  {}

  /** In an ordered list, an id above the item at `k - 1` goes at `k` or later. */
  lemma LowerBoundAbove(items: seq<Item>, id: int, k: nat)
    requires SortedItems(items) && 0 < k <= |items|
    requires items[k - 1].msg.msgId < id
    ensures k <= LowerBound(items, id)
  {}

  /** indexForId: binary search in the rows for the place of `id`. */
  method IndexForId(items: seq<Item>, id: int) returns (r: nat)
    requires SortedItems(items)
    ensures r == LowerBound(items, id)
  {
    if |items| == 0 || id <= items[0].msg.msgId {
      return 0;
    }
    if id > items[|items| - 1].msg.msgId {
      LowerBoundUnique(items, id, |items|);
      return |items|;
    }
    var start := 0;
    var end := |items| - 1;
    while true
      invariant 0 <= start < end < |items|
      invariant items[start].msg.msgId < id <= items[end].msg.msgId
      decreases end - start
    {
      if end - start == 1 {
        LowerBoundUnique(items, id, end);
        return end;
      }
      var pivot := (end + start) / 2;
      if id <= items[pivot].msg.msgId {
        end := pivot;
      } else {
        start := pivot;
      }
    }
  }

  // ---------------------------------------------------------------------
  // Inserting a group (insertMessageGroup)

  /** Whether the item before a group's place is a day-change marker later
      than the group's first message: it is taken out, and moved or dropped. */
  predicate StaleDayChange(items: seq<Item>, start: nat, first: Message) {
    0 < start <= |items| && items[start - 1].msg.kind == DayChange
    && items[start - 1].msg.timestamp > first.timestamp
  }

  /** The day-change marker to put after a group ending in `last`, when the
      item `next` that follows it lies on another day; NoMessage if none. */
  function NewDayChange(next: Message, last: Message): (r: Message)
    ensures r == NoMessage || (r.kind == DayChange && r.msgId == last.msgId)
  {
    if DayOf(next.timestamp) != DayOf(last.timestamp) then DayChangeMessage(DayOf(next.timestamp) * DayInMsecs, last.msgId)
    else NoMessage
  }

  /** A stale marker moved behind a group ending in `last`: kept, with the
      group's last id, only when it is later than that message. */
  function MovedDayChange(stale: Message, last: Message): (r: Message)
    requires stale.kind == DayChange
    ensures r == NoMessage || (r.kind == DayChange && r.msgId == last.msgId)
  {
    if last.timestamp < stale.timestamp then stale.(msgId := last.msgId) else NoMessage
  }

  /** The marker row that follows a group ending in `last`, given the moved
      marker (NoMessage if none) and the rows after the group: the moved
      marker, or else a new one when the next row is on another day. Only
      a valid marker makes a row. */
  function DayChangeTail(after: seq<Item>, moved: Message, last: Message): (r: seq<Item>)
    requires moved == NoMessage || (moved.kind == DayChange && moved.msgId == last.msgId)
    ensures |r| <= 1 && forall i :: 0 <= i < |r| ==> r[i].msg.msgId == last.msgId && r[i].msg.kind == DayChange
  {
    var dayChange := if !IsValid(moved) && |after| > 0 then NewDayChange(after[0].msg, last) else moved;
    if IsValid(dayChange) then [NewItem(dayChange)] else []
  }

  /** The rows with a group put between `before` and `after`. */
  function Splice(before: seq<Item>, group: seq<Message>, tail: seq<Item>, after: seq<Item>): seq<Item> {
    before + NewItems(group) + tail + after
  }

  /** Where insertMessageGroup puts a group: at the place of its first id,
      one earlier when a stale marker is taken out there. */
  function GroupPlace(items: seq<Item>, group: seq<Message>): (r: nat)
    requires |group| > 0
    ensures r <= LowerBound(items, group[0].msgId) <= r + 1
  {
    var start0 := LowerBound(items, group[0].msgId);
    if StaleDayChange(items, start0, group[0]) then start0 - 1 else start0
  }

  /** The rows after insertMessageGroup(group). */
  function GroupInsertion(items: seq<Item>, group: seq<Message>): seq<Item>
    requires |group| > 0
  {
    var last := group[|group| - 1];
    var start0 := LowerBound(items, group[0].msgId);
    var start := GroupPlace(items, group);
    var moved := if start < start0 then MovedDayChange(items[start].msg, last) else NoMessage;
    Splice(items[..start], group, DayChangeTail(items[start0..], moved, last), items[start0..])
  }

  /** The precondition the group insertion asserts: the group is in order
      and fits before the row at its place. */
  predicate GroupFits(items: seq<Item>, group: seq<Message>) {
    |group| > 0 && SortedMessages(group)
    && var start := LowerBound(items, group[0].msgId);
       start == |items| || group[|group| - 1].msgId <= items[start].msg.msgId
  }

  /** A group in order, between rows no greater than its first id and rows
      no smaller than its last, followed by markers with its last id, gives
      rows in order. */
  lemma SpliceSorted(before: seq<Item>, group: seq<Message>, tail: seq<Item>, after: seq<Item>)
    requires |group| > 0 && SortedMessages(group)
    requires SortedItems(before) && SortedItems(after)
    requires forall i :: 0 <= i < |before| ==> before[i].msg.msgId <= group[0].msgId
    requires forall i :: 0 <= i < |tail| ==> tail[i].msg.msgId == group[|group| - 1].msgId
    requires forall j :: 0 <= j < |after| ==> group[|group| - 1].msgId <= after[j].msg.msgId
    ensures SortedItems(Splice(before, group, tail, after))
  {
    var first := group[0].msgId;
    var last := group[|group| - 1].msgId;
    var block := NewItems(group) + tail;
    forall i, j | 0 <= i < j < |block| ensures block[i].msg.msgId <= block[j].msg.msgId {
      if i < |group| {
        assert block[i] == NewItem(group[i]);
      } else {
        assert block[i] == tail[i - |group|];
      }
      if j < |group| {
        assert block[j] == NewItem(group[j]);
      } else {
        assert block[j] == tail[j - |group|];
      }
    }
    forall j | 0 <= j < |block| ensures first <= block[j].msg.msgId <= last {
      if j < |group| {
        assert block[j] == NewItem(group[j]);
      } else {
        assert block[j] == tail[j - |group|];
      }
    }
    SortedJoin(before, block, first);
    var head := before + block;
    forall i | 0 <= i < |head| ensures head[i].msg.msgId <= last {
      if i >= |before| {
        assert head[i] == block[i - |before|];
      }
    }
    SortedJoin(head, after, last);
    assert Splice(before, group, tail, after) == head + after;
  }

  /** Any slice of rows in order is in order. */
  lemma SortedSlice(items: seq<Item>, lo: nat, hi: nat)
    requires SortedItems(items) && lo <= hi <= |items|
    ensures SortedItems(items[lo..hi])
  {
    forall i, j | 0 <= i < j < hi - lo ensures items[lo..hi][i].msg.msgId <= items[lo..hi][j].msg.msgId {
      assert items[lo..hi][i] == items[lo + i] && items[lo..hi][j] == items[lo + j];
    }
  }

  /** Inserting a group that fits keeps the rows in order. */
  lemma GroupInsertionOrdered(items: seq<Item>, group: seq<Message>)
    requires SortedItems(items) && GroupFits(items, group)
    ensures SortedItems(GroupInsertion(items, group))
  {
    var last := group[|group| - 1];
    var start0 := LowerBound(items, group[0].msgId);
    var start := GroupPlace(items, group);
    var moved := if start < start0 then MovedDayChange(items[start].msg, last) else NoMessage;
    var before := items[..start];
    var after := items[start0..];
    var tail := DayChangeTail(after, moved, last);
    SortedSlice(items, 0, start);
    SortedSlice(items, start0, |items|);
    assert before == items[0..start] && after == items[start0..|items|];
    forall j | 0 <= j < |after| ensures last.msgId <= after[j].msg.msgId {
      assert after[j] == items[start0 + j];
    }
    forall i | 0 <= i < |before| ensures before[i].msg.msgId <= group[0].msgId {
      assert before[i] == items[i];
    }
    SpliceSorted(before, group, tail, after);
  }

  /** The group's messages appear as one block at its place, the rows
      before it stay, and at most one row is taken out and one marker
      added. */
  lemma GroupInsertionShape(items: seq<Item>, group: seq<Message>)
    requires |group| > 0
    ensures var r := GroupInsertion(items, group);
      var s := GroupPlace(items, group);
      |items| + |group| - 1 <= |r| <= |items| + |group| + 1
      && s + |group| <= |r| && r[s..s + |group|] == NewItems(group)
      && r[..s] == items[..s]
  {
    var last := group[|group| - 1];
    var start0 := LowerBound(items, group[0].msgId);
    var start := GroupPlace(items, group);
    var moved := if start < start0 then MovedDayChange(items[start].msg, last) else NoMessage;
    var before := items[..start];
    var after := items[start0..];
    var tail := DayChangeTail(after, moved, last);
    var r := Splice(before, group, tail, after);
    assert r == before + NewItems(group) + tail + after;
    assert r[start..start + |group|] == NewItems(group);
    assert r[..start] == before;
  }

  // ---------------------------------------------------------------------
  // Day changes and errors (changeOfDay, insertErrorMessage)

  /** Where changeOfDay puts its marker: after the last item, scanning from
      the end, whose timestamp is not after the day change. */
  predicate DayChangeSpot(items: seq<Item>, nextDayChange: int, idx: nat) {
    idx <= |items|
    && (forall i :: idx <= i < |items| ==> items[i].msg.timestamp > nextDayChange)
    && (idx > 0 ==> items[idx - 1].msg.timestamp <= nextDayChange)
  }

  /** There is exactly one such spot. */
  lemma DayChangeSpotUnique(items: seq<Item>, nextDayChange: int, a: nat, b: nat)
    requires DayChangeSpot(items, nextDayChange, a) && DayChangeSpot(items, nextDayChange, b)
    ensures a == b
  {}

  /** The spot, found from the end. */
  function DayChangeIndex(items: seq<Item>, nextDayChange: int): (r: nat)
    ensures DayChangeSpot(items, nextDayChange, r)
  {
    if |items| == 0 || items[|items| - 1].msg.timestamp <= nextDayChange then |items|
    else DayChangeIndex(items[..|items| - 1], nextDayChange)
  }

  /** A marker that copies the id of the item before it keeps the order. */
  lemma InsertCopyingPredecessor(items: seq<Item>, idx: nat, m: Message)
    requires SortedItems(items) && 0 < idx <= |items| && m.msgId == items[idx - 1].msg.msgId
    ensures SortedItems(items[..idx] + [NewItem(m)] + items[idx..])
  {
    SortedJoin(items[..idx], [NewItem(m)], m.msgId);
    SortedJoin(items[..idx] + [NewItem(m)], items[idx..], m.msgId);
  }

  // ---------------------------------------------------------------------
  // Item data (MessageModelItem::data / setData, MessageModel::data)

  datatype Role =
    | MessageRole | MsgIdRole | BufferIdRole | TypeRole | FlagsRole | TimestampRole
    | RedirectedToRole | ColumnTypeRole | OtherRole(code: int)

  /** What data() answers; NoValue is an invalid QVariant. */
  datatype Value = NoValue | MessageValue(m: Message) | IntValue(i: int) | TypeValue(t: MsgType)

  /** MessageModelItem::data */
  function ItemData(item: Item, column: int, role: Role): Value {
    if column < TimestampColumn || column > ContentsColumn then NoValue
    else
      match role
      case MessageRole => MessageValue(item.msg)
      case MsgIdRole => IntValue(item.msg.msgId)
      case BufferIdRole => IntValue(item.msg.bufferId)
      case TypeRole => TypeValue(item.msg.kind)
      case FlagsRole => IntValue(item.msg.flags)
      case TimestampRole => IntValue(item.msg.timestamp)
      case RedirectedToRole => IntValue(item.redirectedTo)
      case _ => NoValue
  }

  /** MessageModel::data over a list of items. */
  function ModelData(items: seq<Item>, row: int, column: int, role: Role): Value {
    if row < 0 || row >= |items| || column < 0 then NoValue
    else if role == ColumnTypeRole then IntValue(column)
    else ItemData(items[row], column, role)
  }

  /** data() answers only for existing rows and non-negative columns, and
      items only for the three item columns. */
  lemma ModelDataBounds(items: seq<Item>, row: int, column: int, role: Role)
    ensures ModelData(items, row, column, role) != NoValue ==> 0 <= row < |items| && 0 <= column
    ensures role != ColumnTypeRole && ModelData(items, row, column, role) != NoValue ==> column <= ContentsColumn
    ensures 0 <= row < |items| && TimestampColumn <= column <= ContentsColumn && role == MsgIdRole ==>
      ModelData(items, row, column, role) == IntValue(items[row].msg.msgId)
  {}

  // ---------------------------------------------------------------------
  // Backlog bookkeeping

  /** A request to the backlog manager: buffer, first and last message id
      (-1 for none) and the number of messages. */
  datatype BacklogRequest = BacklogRequest(bufferId: int, first: int, last: int, limit: int)

  /** The id of the oldest item of a buffer, or -1 when it has none or the
      first one found has no valid id. */
  function OldestAvailable(items: seq<Item>, bufferId: int): (r: int)
    ensures r == -1 || r > 0
  {
    if |items| == 0 then -1
    else if items[0].msg.bufferId == bufferId then (if items[0].msg.msgId > 0 then items[0].msg.msgId else -1)
    else OldestAvailable(items[1..], bufferId)
  }

  /** The index of the first item of a buffer (|items| when none). */
  function FirstOf(items: seq<Item>, bufferId: int): (r: nat)
    ensures r <= |items|
    ensures forall i :: 0 <= i < r ==> items[i].msg.bufferId != bufferId
    ensures r < |items| ==> items[r].msg.bufferId == bufferId
  {
    if |items| == 0 || items[0].msg.bufferId == bufferId then 0 else 1 + FirstOf(items[1..], bufferId)
  }

  /** The oldest available id is the id of the buffer's first item. */
  lemma {:induction false} OldestAvailableIsFirst(items: seq<Item>, bufferId: int)
    ensures var f := FirstOf(items, bufferId);
      OldestAvailable(items, bufferId) == (if f < |items| && items[f].msg.msgId > 0 then items[f].msg.msgId else -1)
  {
    if |items| > 0 && items[0].msg.bufferId != bufferId {
      OldestAvailableIsFirst(items[1..], bufferId);
      var f := FirstOf(items[1..], bufferId);
      if f < |items[1..]| {
        assert items[1..][f] == items[f + 1];
      }
    }
  }

  /** buffersPermanentlyMerged: every item of `bufferId2` now belongs to
      `bufferId1`. */
  function Retagged(items: seq<Item>, bufferId1: int, bufferId2: int): (r: seq<Item>)
    ensures |r| == |items|
  {
    seq(|items|, i requires 0 <= i < |items| =>
      if items[i].msg.bufferId == bufferId2 then items[i].(msg := items[i].msg.(bufferId := bufferId1)) else items[i])
  }

  /** Merging buffers changes only buffer ids: ids, order and every other
      field stay, and no item of the merged-away buffer remains. */
  lemma RetaggedChangesOnlyBuffers(items: seq<Item>, bufferId1: int, bufferId2: int)
    ensures var r := Retagged(items, bufferId1, bufferId2);
      (forall i :: 0 <= i < |items| ==>
         r[i].msg.msgId == items[i].msg.msgId && r[i].msg.timestamp == items[i].msg.timestamp
         && r[i].msg.kind == items[i].msg.kind && r[i].redirectedTo == items[i].redirectedTo
         && (r[i].msg.bufferId == if items[i].msg.bufferId == bufferId2 then bufferId1 else items[i].msg.bufferId))
      && (bufferId1 != bufferId2 ==> forall i :: 0 <= i < |r| ==> r[i].msg.bufferId != bufferId2)
      && (SortedItems(items) ==> SortedItems(r))
  {}

  // ---------------------------------------------------------------------
  // Traversal order of insertMessagesGracefully

  /** Whether insertMessagesGracefully treats a list as ascending: its
      first id is below its last. */
  predicate InOrder(msglist: seq<Message>)
    requires |msglist| > 0
  {
    msglist[0].msgId < msglist[|msglist| - 1].msgId
  }

  /** The k-th message in the order insertMessagesGracefully visits them:
      from the back for an ascending list, from the front otherwise. */
  function Visit(msglist: seq<Message>, k: nat): Message
    requires k < |msglist|
  {
    if InOrder(msglist) then msglist[|msglist| - 1 - k] else msglist[k]
  }

  /** The messages in the order insertMessagesGracefully visits them. */
  function VisitOrder(msglist: seq<Message>): (r: seq<Message>)
    ensures |r| == |msglist| && forall k :: 0 <= k < |r| ==> r[k] == Visit(msglist, k)
  {
    seq(|msglist|, k requires 0 <= k < |msglist| => Visit(msglist, k))
  }

  /** The messages insertMessagesGracefully has not visited after
      `processed` visits, in their order in the list. */
  function Unvisited(msglist: seq<Message>, processed: nat): seq<Message>
    requires 0 < processed <= |msglist|
  {
    if InOrder(msglist) then msglist[..|msglist| - processed] else msglist[processed..]
  }

  /** The unvisited messages are the ones after the visited ones, taken
      from the list. */
  lemma UnvisitedPart(msglist: seq<Message>, processed: nat)
    requires 0 < processed <= |msglist|
    ensures |Unvisited(msglist, processed)| == |msglist| - processed
    ensures multiset(Unvisited(msglist, processed)) <= multiset(msglist)
  {
    var n := |msglist|;
    if InOrder(msglist) {
      assert msglist[..n - processed] + msglist[n - processed..] == msglist;
    } else {
      assert msglist[..processed] + msglist[processed..] == msglist;
    }
  }

  /** A prefix of a buffer in order, of valid messages, is one too. */
  lemma PrefixKeepsOrder(s: seq<Message>, n: nat)
    requires n <= |s| && SortedMessages(s) && forall i :: 0 <= i < |s| ==> IsValid(s[i])
    ensures SortedMessages(s[..n]) && forall i :: 0 <= i < n ==> IsValid(s[..n][i])
  {}

  /** The unvisited messages of a list of valid messages are valid. */
  lemma UnvisitedValid(msglist: seq<Message>, processed: nat)
    requires 0 < processed <= |msglist|
    requires forall i :: 0 <= i < |msglist| ==> IsValid(msglist[i])
    ensures forall i :: 0 <= i < |Unvisited(msglist, processed)| ==> IsValid(Unvisited(msglist, processed)[i])
  {}

  /** Both orders of a list are visited from larger to smaller ids, and
      every message is visited. */
  lemma VisitOrderDescends(msglist: seq<Message>)
    requires SortedMessages(msglist) || DescendingMessages(msglist)
    ensures DescendingMessages(VisitOrder(msglist))
    ensures forall m :: m in VisitOrder(msglist) <==> m in msglist
  {
    var r := VisitOrder(msglist);
    forall i, j | 0 <= i < j < |r| ensures r[i].msgId >= r[j].msgId {
      VisitDescends(msglist, i, j);
    }
    forall m | m in msglist ensures m in r {
      var k :| 0 <= k < |msglist| && msglist[k] == m;
      if InOrder(msglist) {
        assert r[|msglist| - 1 - k] == m;
      } else {
        assert r[k] == m;
      }
    }
  }

  /** For a list in either order, the visit goes from larger to smaller ids. */
  lemma VisitDescends(msglist: seq<Message>, a: nat, b: nat)
    requires SortedMessages(msglist) || DescendingMessages(msglist)
    requires a <= b < |msglist|
    ensures Visit(msglist, b).msgId <= Visit(msglist, a).msgId
  {
    var n := |msglist|;
    if !InOrder(msglist) && SortedMessages(msglist) && a < b {
      assert msglist[0].msgId <= msglist[a].msgId <= msglist[b].msgId <= msglist[n - 1].msgId;
    }
  }

  /** The state of insertMessagesGracefully between two visits. While no
      message is collected, the last id visited (`dupeId`) is already a
      row's id; afterwards the collected group is in order, starts with the
      last id visited, goes at row `idx0` and ends below that row. */
  ghost predicate PendingGroup(items: seq<Item>, idx0: nat, dupeId: int, grouplist: seq<Message>) {
    (grouplist == [] && LowerBound(items, dupeId) < |items| && items[LowerBound(items, dupeId)].msg.msgId == dupeId)
    || (grouplist != [] && SortedMessages(grouplist) && grouplist[0].msgId == dupeId && LowerBound(items, dupeId) == idx0
        && (idx0 == |items| || grouplist[|grouplist| - 1].msgId < items[idx0].msg.msgId))
  }

  /** A collected group that is pending fits at its place. */
  lemma PendingGroupFits(items: seq<Item>, idx0: nat, dupeId: int, grouplist: seq<Message>)
    requires PendingGroup(items, idx0, dupeId, grouplist) && grouplist != []
    ensures GroupFits(items, grouplist) && BelowNextRow(items, grouplist)
    ensures LowerBound(items, grouplist[0].msgId) == idx0
  {}

  /** A group whose last id is below the row at its place. */
  predicate BelowNextRow(items: seq<Item>, group: seq<Message>) {
    |group| > 0
    && var start := LowerBound(items, group[0].msgId);
       start == |items| || group[|group| - 1].msgId < items[start].msg.msgId
  }

  /** A group in order that lies below the row at its place brings only
      ids that no row has. */
  lemma GroupIdsAreNew(items: seq<Item>, group: seq<Message>)
    requires SortedItems(items) && GroupFits(items, group) && BelowNextRow(items, group)
    ensures forall i, j :: 0 <= i < |group| && 0 <= j < |items| ==> group[i].msgId != items[j].msg.msgId
  {
    var p := LowerBound(items, group[0].msgId);
    LowerBoundBelow(items, group[0].msgId);
    forall i, j | 0 <= i < |group| && 0 <= j < |items| ensures group[i].msgId != items[j].msg.msgId {
      assert group[0].msgId <= group[i].msgId <= group[|group| - 1].msgId;
      if j >= p {
        assert items[p].msg.msgId <= items[j].msg.msgId;
      }
    }
  }

  /** A visited message above the row before `idx0`, and not above the
      first message visited, goes at `idx0`. */
  lemma PlaceOfVisited(items: seq<Item>, idx0: nat, id0: int, id: int)
    requires SortedItems(items) && idx0 == LowerBound(items, id0) && id <= id0
    requires idx0 > 0 ==> items[idx0 - 1].msg.msgId < id
    ensures LowerBound(items, id) == idx0
  {
    LowerBoundMonotone(items, id, id0);
    if idx0 > 0 {
      LowerBoundAbove(items, id, idx0);
    }
  }

  /** A first message that is not a row yet, placed at `idx0`, starts a
      pending group. */
  lemma StartGroup(items: seq<Item>, idx0: nat, m: Message)
    requires LowerBound(items, m.msgId) == idx0
    requires idx0 < |items| ==> items[idx0].msg.msgId != m.msgId
    ensures PendingGroup(items, idx0, m.msgId, [m])
  {
    assert [m][|[m]| - 1] == m;
  }

  /** Putting a smaller message, and markers with its id, in front of a
      pending group keeps it pending. */
  lemma ExtendGroup(items: seq<Item>, idx0: nat, dupeId: int, grouplist: seq<Message>, m: Message, markers: seq<Message>)
    requires PendingGroup(items, idx0, dupeId, grouplist) && grouplist != []
    requires m.msgId < dupeId && LowerBound(items, m.msgId) == idx0
    requires forall i :: 0 <= i < |markers| ==> markers[i].msgId == m.msgId
    ensures PendingGroup(items, idx0, m.msgId, [m] + markers + grouplist)
  {
    var g := [m] + markers + grouplist;
    forall i, j | 0 <= i < j < |g| ensures g[i].msgId <= g[j].msgId {
      if j > |markers| {
        assert g[j] == grouplist[j - 1 - |markers|];
        assert grouplist[0].msgId <= g[j].msgId;
        if i > |markers| {
          assert g[i] == grouplist[i - 1 - |markers|];
        }
      }
    }
  }

  /** Every message of a group is one of the first `k` visited or a
      day-change marker. */
  ghost predicate DrawnFrom(order: seq<Message>, k: nat, group: seq<Message>)
    requires k <= |order|
  {
    forall x :: x in group ==> x in order[..k] || x.kind == DayChange
  }

  /** A group grown by the `k`-th message visited and markers stays drawn
      from the messages visited. */
  lemma DrawnStep(order: seq<Message>, k: nat, group: seq<Message>, group': seq<Message>)
    requires k < |order| && DrawnFrom(order, k, group)
    requires forall x :: x in group' ==> x in group || x == order[k] || x.kind == DayChange
    ensures DrawnFrom(order, k + 1, group')
  {
    assert order[..k + 1] == order[..k] + [order[k]];
  }

  /** Whether some row has this id: the row at its lower bound carries it. */
  predicate HasRow(items: seq<Item>, id: int) {
    LowerBound(items, id) < |items| && items[LowerBound(items, id)].msg.msgId == id
  }

  /** Every message visited after the first lies above the row before the
      first message's place, when there is such a row. */
  predicate AboveRowBefore(items: seq<Item>, order: seq<Message>, k: nat)
    requires 0 < |order| && k <= |order|
  {
    var p := LowerBound(items, order[0].msgId);
    forall j :: 0 < j < k ==> p == 0 || items[p - 1].msg.msgId < order[j].msgId
  }

  /** The visit stops at the first message, after the first one, that is
      not above the row before the first message's place; with no row
      before that place it runs to the end. */
  predicate StopsAtRowBefore(items: seq<Item>, order: seq<Message>, processed: nat)
    requires 0 < processed <= |order|
  {
    var p := LowerBound(items, order[0].msgId);
    AboveRowBefore(items, order, processed)
    && (processed < |order| ==> p > 0 && order[processed].msgId <= items[p - 1].msg.msgId)
  }

  /** Every visited message whose id no row has is collected, except one
      that repeats the id of the message visited just before it. */
  ghost predicate CollectsNewIds(items: seq<Item>, order: seq<Message>, processed: nat, group: seq<Message>)
    requires processed <= |order|
  {
    forall k :: 0 <= k < processed && !HasRow(items, order[k].msgId) ==>
      order[k] in group || (0 < k && order[k - 1].msgId == order[k].msgId)
  }

  /** One more visited message keeps the collected messages collected, and
      adds the new one unless its id is a row's or the previous one's. */
  lemma CollectStep(items: seq<Item>, order: seq<Message>, k: nat, group: seq<Message>, group': seq<Message>)
    requires k < |order| && CollectsNewIds(items, order, k, group)
    requires forall x :: x in group ==> x in group'
    requires !HasRow(items, order[k].msgId) ==> order[k] in group' || (0 < k && order[k - 1].msgId == order[k].msgId)
    ensures CollectsNewIds(items, order, k + 1, group')
  {}

  /** One visit of insertMessagesGracefully after the first, of message
      `m`, given the id visited last (`dupeId`) and the group collected so
      far: while nothing is collected, `dupeId` moves to the row at m's
      place; m is then skipped if it has that id, and otherwise goes in
      front of the group, after a day-change marker when it lies on another
      day than the group's first message. Returns the new `dupeId` and
      group. (While nothing is collected m's place is a row, as
      VisitStepKeepsPending shows, so the guard on the row index never
      fails in the walk.) */
  function VisitStep(items: seq<Item>, dupeId: int, grouplist: seq<Message>, m: Message): (r: (int, seq<Message>))
  {
    var idx := LowerBound(items, m.msgId);
    var dupe := if grouplist == [] && idx < |items| then items[idx].msg.msgId else dupeId;
    if m.msgId == dupe then (dupe, grouplist)
    else if grouplist == [] then (m.msgId, [m])
    else (m.msgId, [m] + DayMarkers(grouplist, m) + grouplist)
  }

  /** The day-change marker put between `m` and a group whose first
      message lies on another day: midnight of the group's day, with m's
      id. */
  function DayMarkers(grouplist: seq<Message>, m: Message): (r: seq<Message>)
    requires grouplist != []
    ensures |r| <= 1 && forall i :: 0 <= i < |r| ==> r[i].msgId == m.msgId && r[i].kind == DayChange
    ensures r != [] <==> DayOf(grouplist[0].timestamp) != DayOf(m.timestamp)
  {
    var nextDay := DayOf(grouplist[0].timestamp);
    if nextDay != DayOf(m.timestamp) then [DayChangeMessage(nextDay * DayInMsecs, m.msgId)] else []
  }

  /** In any state, a visit leaves m's id as the last one visited, keeps
      what was collected, adds only m and day-change markers, and adds m
      unless its id is a row's or the one visited last. */
  lemma VisitStepCollects(items: seq<Item>, dupeId: int, grouplist: seq<Message>, m: Message)
    ensures var r := VisitStep(items, dupeId, grouplist, m);
      r.0 == m.msgId
      && (forall x :: x in r.1 ==> x in grouplist || x == m || x.kind == DayChange)
      && (forall x :: x in grouplist ==> x in r.1)
      && (!HasRow(items, m.msgId) ==> m in r.1 || m.msgId == dupeId)
  {
    if grouplist != [] && m.msgId != dupeId {
      var markers := DayMarkers(grouplist, m);
      assert VisitStep(items, dupeId, grouplist, m).1 == [m] + markers + grouplist;
      assert forall x :: x in markers ==> x.kind == DayChange;
    }
  }

  /** A visit of a message no greater than the one visited last and above
      the row before the group's place keeps the group pending at that
      place; while nothing is collected, m's place is a row. */
  lemma VisitStepKeepsPending(items: seq<Item>, idx0: nat, id0: int, dupeId: int, grouplist: seq<Message>, m: Message)
    requires SortedItems(items) && idx0 == LowerBound(items, id0) && m.msgId <= id0
    requires idx0 > 0 ==> items[idx0 - 1].msg.msgId < m.msgId
    requires m.msgId <= dupeId && PendingGroup(items, idx0, dupeId, grouplist)
    ensures var r := VisitStep(items, dupeId, grouplist, m);
      r.0 == m.msgId && PendingGroup(items, idx0, r.0, r.1)
    ensures grouplist == [] ==> LowerBound(items, m.msgId) < |items|
  {
    var idx := LowerBound(items, m.msgId);
    if grouplist == [] {
      LowerBoundMonotone(items, m.msgId, dupeId);
      if m.msgId != items[idx].msg.msgId {
        PlaceOfVisited(items, idx0, id0, m.msgId);
        StartGroup(items, idx0, m);
      }
    } else if m.msgId != dupeId {
      PlaceOfVisited(items, idx0, id0, m.msgId);
      ExtendGroup(items, idx0, dupeId, grouplist, m, DayMarkers(grouplist, m));
    }
  }

  /** The walk of insertMessagesGracefully over the messages in visiting
      order, from the `k`-th on, with the id visited last and the group
      collected so far; `Walk(items, order, 0, 0, [])` is the whole walk.
      The first message is collected unless the row at its place has its
      id (0 when no row is there); the walk then stops at the end of the
      list or at the first message not above the row before the first
      message's place. Returns how many messages were visited and the
      group collected. */
  function Walk(items: seq<Item>, order: seq<Message>, k: nat, dupeId: int, grouplist: seq<Message>): (r: (nat, seq<Message>))
    requires 0 < |order| && k <= |order|
    ensures 0 < r.0 <= |order| && k <= r.0
    decreases |order| - k
  {
    var idx0 := LowerBound(items, order[0].msgId);
    if k == 0 then
      Walk(items, order, 1, order[0].msgId, FirstGroup(items, order[0]))
    else if k == |order| || (idx0 > 0 && order[k].msgId <= items[idx0 - 1].msg.msgId) then (k, grouplist)
    else
      var s := VisitStep(items, dupeId, grouplist, order[k]);
      Walk(items, order, k + 1, s.0, s.1)
  }

  /** The first visit: the first message is collected unless the row at
      its place has its id (0 when no row is there). */
  function FirstGroup(items: seq<Item>, m0: Message): (r: seq<Message>)
    ensures r == [] || r == [m0]
  {
    var idx0 := LowerBound(items, m0.msgId);
    var dupe := if idx0 < |items| then items[idx0].msg.msgId else 0;
    if m0.msgId != dupe then [m0] else []
  }

  /** From any point of the walk whose visits so far lie above the row
      before the first message's place, the walk visits exactly as far as
      StopsAtRowBefore allows. */
  lemma {:induction false} WalkStopsFrom(items: seq<Item>, order: seq<Message>, k: nat, dupeId: int, grouplist: seq<Message>)
    requires 0 < k <= |order| && AboveRowBefore(items, order, k)
    ensures StopsAtRowBefore(items, order, Walk(items, order, k, dupeId, grouplist).0)
    decreases |order| - k
  {
    var idx0 := LowerBound(items, order[0].msgId);
    if k < |order| && !(idx0 > 0 && order[k].msgId <= items[idx0 - 1].msg.msgId) {
      var s := VisitStep(items, dupeId, grouplist, order[k]);
      WalkStopsFrom(items, order, k + 1, s.0, s.1);
    }
  }

  /** From any point of the walk, the group stays made of visited messages
      and day-change markers. */
  lemma {:induction false} WalkDrawsFrom(items: seq<Item>, order: seq<Message>, k: nat, dupeId: int, grouplist: seq<Message>)
    requires 0 < k <= |order| && DrawnFrom(order, k, grouplist)
    ensures var r := Walk(items, order, k, dupeId, grouplist);
      DrawnFrom(order, r.0, r.1)
    decreases |order| - k
  {
    var idx0 := LowerBound(items, order[0].msgId);
    if k < |order| && !(idx0 > 0 && order[k].msgId <= items[idx0 - 1].msg.msgId) {
      var s := VisitStep(items, dupeId, grouplist, order[k]);
      VisitStepCollects(items, dupeId, grouplist, order[k]);
      DrawnStep(order, k, grouplist, s.1);
      WalkDrawsFrom(items, order, k + 1, s.0, s.1);
    }
  }

  /** From any point of the walk, with the last visited id as `dupeId`,
      every visited message with a new id ends up collected (a repeat of
      the previous id aside). */
  lemma {:induction false} WalkCollectsFrom(items: seq<Item>, order: seq<Message>, k: nat, dupeId: int, grouplist: seq<Message>)
    requires 0 < k <= |order| && dupeId == order[k - 1].msgId && CollectsNewIds(items, order, k, grouplist)
    ensures var r := Walk(items, order, k, dupeId, grouplist);
      CollectsNewIds(items, order, r.0, r.1)
    decreases |order| - k
  {
    var idx0 := LowerBound(items, order[0].msgId);
    if k < |order| && !(idx0 > 0 && order[k].msgId <= items[idx0 - 1].msg.msgId) {
      var s := VisitStep(items, dupeId, grouplist, order[k]);
      VisitStepCollects(items, dupeId, grouplist, order[k]);
      CollectStep(items, order, k, grouplist, s.1);
      WalkCollectsFrom(items, order, k + 1, s.0, s.1);
    }
  }

  /** From any point of the walk where the group is pending at the first
      message's place, the group the walk ends with fits there, below the
      next row. */
  lemma {:induction false} WalkFitsFrom(items: seq<Item>, order: seq<Message>, k: nat, dupeId: int, grouplist: seq<Message>)
    requires SortedItems(items) && DescendingMessages(order)
    requires 0 < k <= |order| && dupeId == order[k - 1].msgId
    requires PendingGroup(items, LowerBound(items, order[0].msgId), dupeId, grouplist)
    ensures var r := Walk(items, order, k, dupeId, grouplist);
      r.1 != [] ==> GroupFits(items, r.1) && BelowNextRow(items, r.1)
    decreases |order| - k
  {
    var idx0 := LowerBound(items, order[0].msgId);
    if k < |order| && !(idx0 > 0 && order[k].msgId <= items[idx0 - 1].msg.msgId) {
      var m := order[k];
      assert m.msgId <= order[0].msgId && m.msgId <= dupeId;
      var s := VisitStep(items, dupeId, grouplist, m);
      VisitStepKeepsPending(items, idx0, order[0].msgId, dupeId, grouplist, m);
      WalkFitsFrom(items, order, k + 1, s.0, s.1);
    } else if grouplist != [] {
      PendingGroupFits(items, idx0, dupeId, grouplist);
    }
  }

  /** The visiting part of insertMessagesGracefully visits the first
      message and then exactly as far as StopsAtRowBefore allows. */
  lemma WalkStops(items: seq<Item>, order: seq<Message>)
    requires |order| > 0
    ensures StopsAtRowBefore(items, order, Walk(items, order, 0, 0, []).0)
  {
    WalkStopsFrom(items, order, 1, order[0].msgId, FirstGroup(items, order[0]));
  }

  /** It collects only visited messages and day-change markers. */
  lemma WalkDraws(items: seq<Item>, order: seq<Message>)
    requires |order| > 0
    ensures DrawnFrom(order, Walk(items, order, 0, 0, []).0, Walk(items, order, 0, 0, []).1)
  {
    assert order[..1] == [order[0]];
    WalkDrawsFrom(items, order, 1, order[0].msgId, FirstGroup(items, order[0]));
  }

  /** For valid messages, it collects every visited message whose id no row
      has, except a repeat of the id visited just before. */
  lemma WalkCollects(items: seq<Item>, order: seq<Message>)
    requires |order| > 0 && forall i :: 0 <= i < |order| ==> IsValid(order[i])
    ensures CollectsNewIds(items, order, Walk(items, order, 0, 0, []).0, Walk(items, order, 0, 0, []).1)
  {
    assert IsValid(order[0]);
    assert !HasRow(items, order[0].msgId) ==> FirstGroup(items, order[0]) == [order[0]];
    WalkCollectsFrom(items, order, 1, order[0].msgId, FirstGroup(items, order[0]));
  }

  /** For rows in order and valid messages in visiting order, a non-empty
      group it collects fits at its place, below the next row. */
  lemma WalkGroupFits(items: seq<Item>, order: seq<Message>)
    requires SortedItems(items) && |order| > 0 && DescendingMessages(order)
    requires forall i :: 0 <= i < |order| ==> IsValid(order[i])
    ensures var r := Walk(items, order, 0, 0, []);
      r.1 != [] ==> GroupFits(items, r.1) && BelowNextRow(items, r.1)
  {
    var m0 := order[0];
    var idx0 := LowerBound(items, m0.msgId);
    if FirstGroup(items, m0) != [] {
      StartGroup(items, idx0, m0);
    } else {
      assert IsValid(order[0]);
    }
    WalkFitsFrom(items, order, 1, m0.msgId, FirstGroup(items, m0));
  }

  /** The visiting part of insertMessagesGracefully: the group to insert
      and the number of messages visited, given the messages in the order
      they are visited and the place `idx` of the first one among the
      rows. */
  method CollectGroup(items: seq<Item>, order: seq<Message>, idx: nat) returns (processed: nat, grouplist: seq<Message>)
    requires |order| > 0 && idx == LowerBound(items, order[0].msgId)
    ensures (processed, grouplist) == Walk(items, order, 0, 0, [])
  {
    var n := |order|;
    var m0 := order[0];
    var minId := 0;
    var dupeId := 0;
    var fastForward := false;
    ghost var idx0 := idx;
    if idx < |items| {
      dupeId := items[idx].msg.msgId;
    }
    if idx - 1 >= 0 {
      minId := items[idx - 1].msg.msgId;
    } else {
      fastForward := true;
    }
    grouplist := [];
    if m0.msgId != dupeId {
      grouplist := [m0];
      dupeId := m0.msgId;
    }
    assert grouplist == FirstGroup(items, m0);
    processed := 1;
    ghost var whole := Walk(items, order, 1, dupeId, grouplist);
    assert whole == Walk(items, order, 0, 0, []);
    while processed < n
      invariant 1 <= processed <= n
      invariant idx0 == LowerBound(items, m0.msgId)
      invariant fastForward <==> idx0 == 0
      invariant !fastForward ==> minId == items[idx0 - 1].msg.msgId
      invariant Walk(items, order, processed, dupeId, grouplist) == whole
      decreases n - processed
    {
      var m := order[processed];
      if !fastForward && m.msgId <= minId {
        break;
      }
      var s := VisitStep(items, dupeId, grouplist, m);
      dupeId, grouplist := s.0, s.1;
      processed := processed + 1;
    }
  }

  // ---------------------------------------------------------------------
  // The model

  class MessageModel {
    /** The rows, through the messageItemAt / insertMessage__ /
        takeMessageAt hooks. */
    var items: seq<Item>
    /** _messageBuffer: backlog not yet merged into the rows. */
    var messageBuffer: seq<Message>
    /** _messagesWaiting: messages still expected per buffer. */
    var messagesWaiting: map<int, int>
    /** _nextDayChange in milliseconds since the epoch. */
    var nextDayChange: int
    /** ProcessBufferEvents posted to this model. */
    var postedEvents: nat
    /** Requests made to the backlog manager, oldest first. */
    var backlogRequests: seq<BacklogRequest>
    /** Buffers announced by finishedBacklogFetch, oldest first. */
    var finishedFetches: seq<int>

    /** The rows are ordered by id; the waiting buffer is ordered too and
        holds only valid messages. */
    predicate Valid()
      reads this
    {
      SortedItems(items) && SortedMessages(messageBuffer)
      && forall i :: 0 <= i < |messageBuffer| ==> IsValid(messageBuffer[i])
    }

    /** The first day change is midnight (UTC) after `now`. */
    constructor(now: int)
      ensures Valid() && items == [] && messageBuffer == [] && messagesWaiting == map[]
      ensures nextDayChange == (DayOf(now) + 1) * DayInMsecs
      ensures postedEvents == 0 && backlogRequests == [] && finishedFetches == []
    {
      items := [];
      messageBuffer := [];
      messagesWaiting := map[];
      nextDayChange := (DayOf(now) + 1) * DayInMsecs;
      postedEvents := 0;
      backlogRequests := [];
      finishedFetches := [];
    }

    /** data */
    function Data(row: int, column: int, role: Role): (r: Value)
      reads this
      ensures r != NoValue ==> 0 <= row < |items| && 0 <= column
    {
      ModelData(items, row, column, role)
    }

    /** setData: only the redirection of an existing row can be set. */
    method SetData(row: int, column: int, value: int, role: Role) returns (ok: bool)
      modifies this
      ensures ok == (0 <= row < |old(items)| && role == RedirectedToRole)
      ensures ok ==> items == old(items)[row := old(items)[row].(redirectedTo := value)]
      ensures !ok ==> items == old(items)
      ensures messageBuffer == old(messageBuffer) && messagesWaiting == old(messagesWaiting)
      ensures nextDayChange == old(nextDayChange) && postedEvents == old(postedEvents)
      ensures backlogRequests == old(backlogRequests) && finishedFetches == old(finishedFetches)
      ensures old(Valid()) ==> Valid()
      ensures ok && 0 <= column <= ContentsColumn ==> Data(row, column, RedirectedToRole) == IntValue(value)
    {
      if row < 0 || row >= |items| {
        return false;
      }
      match role
      case RedirectedToRole =>
        items := items[row := items[row].(redirectedTo := value)];
        ok := true;
      case _ =>
        ok := false;
    }

    /** insertMessage: a message whose id is already at its place is
        refused unless it is a fake message. */
    method InsertMessage(msg: Message, fakeMsg: bool) returns (inserted: bool)
      requires Valid()
      modifies this`items
      ensures Valid()
      ensures var idx := LowerBound(old(items), msg.msgId);
        inserted == (fakeMsg || idx == |old(items)| || old(items)[idx].msg.msgId != msg.msgId)
      ensures inserted ==> items == GroupInsertion(old(items), [msg])
      ensures !inserted ==> items == old(items)
      ensures messageBuffer == old(messageBuffer) && messagesWaiting == old(messagesWaiting)
      ensures nextDayChange == old(nextDayChange) && postedEvents == old(postedEvents)
      ensures backlogRequests == old(backlogRequests) && finishedFetches == old(finishedFetches)
    {
      var idx := IndexForId(items, msg.msgId);
      if !fakeMsg && idx < |items| {
        if items[idx].msg.msgId == msg.msgId {
          return false;
        }
      }
      InsertMessageGroup([msg]);
      return true;
    }

    /** insertMessageGroup */
    method InsertMessageGroup(group: seq<Message>)
      requires Valid() && GroupFits(items, group)
      modifies this`items
      ensures Valid()
      ensures items == GroupInsertion(old(items), group)
      ensures messageBuffer == old(messageBuffer) && messagesWaiting == old(messagesWaiting)
      ensures nextDayChange == old(nextDayChange) && postedEvents == old(postedEvents)
      ensures backlogRequests == old(backlogRequests) && finishedFetches == old(finishedFetches)
    {
      GroupInsertionOrdered(items, group);
      ghost var items0 := items;
      ghost var start0 := LowerBound(items, group[0].msgId);
      var first := group[0];
      var last := group[|group| - 1];
      var start := IndexForId(items, first.msgId);
      var dayChangeMsg := NoMessage;
      if start > 0 {
        var prevIdx := start - 1;
        if items[prevIdx].msg.kind == DayChange && items[prevIdx].msg.timestamp > first.timestamp {
          var oldDayChangeMsg := items[prevIdx].msg;
          items := items[..prevIdx] + items[prevIdx + 1..];
          if last.timestamp < oldDayChangeMsg.timestamp {
            dayChangeMsg := oldDayChangeMsg.(msgId := last.msgId);
          }
          start := start - 1;
        }
      }
      assert start == GroupPlace(items0, group);
      assert items[..start] == items0[..start] && items[start..] == items0[start0..];
      assert dayChangeMsg == if start < start0 then MovedDayChange(items0[start].msg, last) else NoMessage;
      if !IsValid(dayChangeMsg) && start < |items| {
        var nextTs := items[start].msg.timestamp;
        var prevTs := last.timestamp;
        var nextDay := DayOf(nextTs);
        var prevDay := DayOf(prevTs);
        if nextDay != prevDay {
          dayChangeMsg := DayChangeMessage(nextDay * DayInMsecs, last.msgId);
        }
      }
      var tail: seq<Item> := [];
      if IsValid(dayChangeMsg) {
        tail := [NewItem(dayChangeMsg)];
      }
      assert tail == DayChangeTail(items0[start0..], if start < start0 then MovedDayChange(items0[start].msg, last) else NoMessage, last);
      items := items[..start] + NewItems(group) + tail + items[start..];
    }

    /** insertMessagesGracefully: merges in the messages at one end of
        `msglist` that fit between two neighbouring rows, skipping ids that
        are already there, with day-change markers between messages of
        different days. Returns how many messages were visited. */
    method InsertMessagesGracefully(msglist: seq<Message>) returns (processed: nat, ghost group: seq<Message>)
      requires Valid()
      requires |msglist| > 0 && (SortedMessages(msglist) || DescendingMessages(msglist))
      requires forall i :: 0 <= i < |msglist| ==> IsValid(msglist[i])
      modifies this`items
      ensures Valid()
      ensures (processed, group) == Walk(old(items), VisitOrder(msglist), 0, 0, [])
      ensures items == if group == [] then old(items) else GroupInsertion(old(items), group)
      ensures messageBuffer == old(messageBuffer) && messagesWaiting == old(messagesWaiting)
      ensures nextDayChange == old(nextDayChange) && postedEvents == old(postedEvents)
      ensures backlogRequests == old(backlogRequests) && finishedFetches == old(finishedFetches)
    {
      VisitOrderDescends(msglist);
      var grouplist;
      var idx := IndexForId(items, VisitOrder(msglist)[0].msgId);
      processed, grouplist := CollectGroup(items, VisitOrder(msglist), idx);
      group := grouplist;
      WalkGroupFits(items, VisitOrder(msglist));
      if grouplist != [] {
        InsertMessageGroup(grouplist);
      }
    }

    /** The branch of insertMessages taken with an empty message buffer:
        merges what fits and parks the messages not visited, ordered by id,
        posting one event when some are parked. */
    method MergeAndPark(msglist: seq<Message>) returns (ghost processed: nat, ghost group: seq<Message>)
      requires Valid() && messageBuffer == []
      requires |msglist| > 0 && (SortedMessages(msglist) || DescendingMessages(msglist))
      requires forall i :: 0 <= i < |msglist| ==> IsValid(msglist[i])
      modifies this`items, this`messageBuffer, this`postedEvents
      ensures Valid()
      ensures (processed, group) == Walk(old(items), VisitOrder(msglist), 0, 0, [])
      ensures items == (if group == [] then old(items) else GroupInsertion(old(items), group))
      ensures multiset(messageBuffer) == multiset(Unvisited(msglist, processed))
      ensures messagesWaiting == old(messagesWaiting) && nextDayChange == old(nextDayChange)
      ensures postedEvents == old(postedEvents) + (if messageBuffer != [] then 1 else 0)
      ensures backlogRequests == old(backlogRequests) && finishedFetches == old(finishedFetches)
    {
      var processedMsgs;
      processedMsgs, group := InsertMessagesGracefully(msglist);
      processed := processedMsgs;
      Park(msglist, processedMsgs);
    }

    /** The rest of that branch: the messages not visited, ordered by id,
        become the message buffer, and an event is posted when there are
        some. */
    method Park(msglist: seq<Message>, processedMsgs: nat)
      requires messageBuffer == [] && 0 < processedMsgs <= |msglist|
      requires forall i :: 0 <= i < |msglist| ==> IsValid(msglist[i])
      modifies this`messageBuffer, this`postedEvents
      ensures multiset(messageBuffer) == multiset(Unvisited(msglist, processedMsgs))
      ensures SortedMessages(messageBuffer) && forall i :: 0 <= i < |messageBuffer| ==> IsValid(messageBuffer[i])
      ensures postedEvents == old(postedEvents) + (if messageBuffer != [] then 1 else 0)
    {
      var remainingMsgs := |msglist| - processedMsgs;
      if remainingMsgs > 0 {
        // the unvisited end of the list, chosen by its order
        var rest := Unvisited(msglist, processedMsgs);
        UnvisitedValid(msglist, processedMsgs);
        SortKeepsValid(rest);
        messageBuffer := SortById(rest);
        postedEvents := postedEvents + 1;
      }
    }

    /** insertMessages: merges what fits right away and parks the rest,
        ordered by id, in the message buffer to be merged by later events. */
    method InsertMessages(msglist: seq<Message>) returns (ghost processed: nat, ghost group: seq<Message>)
      requires Valid()
      requires SortedMessages(msglist) || DescendingMessages(msglist)
      requires forall i :: 0 <= i < |msglist| ==> IsValid(msglist[i])
      modifies this`items, this`messageBuffer, this`postedEvents
      ensures Valid()
      ensures |msglist| == 0 ==> items == old(items) && messageBuffer == old(messageBuffer)
      ensures |msglist| > 0 && old(messageBuffer) != [] ==>
        items == old(items) && multiset(messageBuffer) == multiset(old(messageBuffer)) + multiset(msglist)
      ensures |msglist| > 0 && old(messageBuffer) == [] ==>
        (processed, group) == Walk(old(items), VisitOrder(msglist), 0, 0, [])
        && items == (if group == [] then old(items) else GroupInsertion(old(items), group))
        && multiset(messageBuffer) == multiset(Unvisited(msglist, processed))
      ensures messagesWaiting == old(messagesWaiting) && nextDayChange == old(nextDayChange)
      ensures postedEvents == old(postedEvents) + (if old(messageBuffer) == [] && messageBuffer != [] then 1 else 0)
      ensures backlogRequests == old(backlogRequests) && finishedFetches == old(finishedFetches)
    {
      processed, group := 0, [];
      if |msglist| == 0 {
        return;
      }
      if messageBuffer == [] {
        processed, group := MergeAndPark(msglist);
      } else {
        SortKeepsValid(messageBuffer + msglist);
        messageBuffer := SortById(messageBuffer + msglist);
        assert multiset(messageBuffer) == multiset(old(messageBuffer)) + multiset(msglist);
      }
    }

    /** customEvent: merges what fits from the buffer and drops that many
        messages from its end; another event follows while some remain. */
    method CustomEvent(isProcessBufferEvent: bool) returns (ghost processed: nat, ghost group: seq<Message>)
      requires Valid()
      modifies this`items, this`messageBuffer, this`postedEvents
      ensures Valid()
      ensures !isProcessBufferEvent || old(messageBuffer) == [] ==>
        items == old(items) && messageBuffer == old(messageBuffer) && postedEvents == old(postedEvents)
      ensures isProcessBufferEvent && old(messageBuffer) != [] ==>
        (processed, group) == Walk(old(items), VisitOrder(old(messageBuffer)), 0, 0, [])
        && items == (if group == [] then old(items) else GroupInsertion(old(items), group))
        && messageBuffer == old(messageBuffer)[..|old(messageBuffer)| - processed]
        && |messageBuffer| < |old(messageBuffer)|
        && postedEvents == old(postedEvents) + (if messageBuffer != [] then 1 else 0)
      ensures messagesWaiting == old(messagesWaiting) && nextDayChange == old(nextDayChange)
      ensures backlogRequests == old(backlogRequests) && finishedFetches == old(finishedFetches)
    {
      processed, group := 0, [];
      if !isProcessBufferEvent {
        return;
      }
      if messageBuffer == [] {
        return;
      }
      var processedMsgs;
      processedMsgs, group := InsertMessagesGracefully(messageBuffer);
      processed := processedMsgs;
      var remainingMsgs := |messageBuffer| - processedMsgs;
      PrefixKeepsOrder(messageBuffer, remainingMsgs);
      messageBuffer := messageBuffer[..remainingMsgs];
      if messageBuffer != [] {
        postedEvents := postedEvents + 1;
      }
    }

    /** clear: forgets the waiting counters and removes every row; the
        message buffer is kept. */
    method Clear()
      modifies this
      ensures messagesWaiting == map[] && items == []
      ensures messageBuffer == old(messageBuffer) && nextDayChange == old(nextDayChange)
      ensures postedEvents == old(postedEvents)
      ensures backlogRequests == old(backlogRequests) && finishedFetches == old(finishedFetches)
      ensures old(Valid()) ==> Valid()
    {
      messagesWaiting := map[];
      if |items| > 0 {
        items := [];
      }
    }

    /** changeOfDay: puts a day-change marker after the last row, scanning
        from the end, that is not after the day change, with that row's id,
        unless every row is after it; then moves on by one day. */
    method ChangeOfDay()
      requires Valid()
      modifies this
      ensures Valid()
      ensures nextDayChange == old(nextDayChange) + DayInMsecs
      ensures var idx := DayChangeIndex(old(items), old(nextDayChange));
        items == (if idx == 0 then old(items)
                  else old(items)[..idx] + [NewItem(DayChangeMessage(old(nextDayChange), old(items)[idx - 1].msg.msgId))]
                       + old(items)[idx..])
      ensures messageBuffer == old(messageBuffer) && messagesWaiting == old(messagesWaiting)
      ensures postedEvents == old(postedEvents)
      ensures backlogRequests == old(backlogRequests) && finishedFetches == old(finishedFetches)
    {
      if items != [] {
        var idx := |items|;
        while idx > 0 && items[idx - 1].msg.timestamp > nextDayChange
          invariant 0 <= idx <= |items|
          invariant forall i :: idx <= i < |items| ==> items[i].msg.timestamp > nextDayChange
        {
          idx := idx - 1;
        }
        DayChangeSpotUnique(items, nextDayChange, idx, DayChangeIndex(items, nextDayChange));
        if idx != 0 {
          var dayChangeMsg := DayChangeMessage(nextDayChange, items[idx - 1].msg.msgId);
          InsertCopyingPredecessor(items, idx, dayChangeMsg);
          items := items[..idx] + [NewItem(dayChangeMsg)] + items[idx..];
        }
      }
      nextDayChange := nextDayChange + DayInMsecs;
    }

    /** insertErrorMessage: appends an error with the id of the last row (0
        when there is none). `now` is the time the message is created. */
    method InsertErrorMessage(bufferId: int, errorString: string, now: int)
      requires Valid()
      modifies this
      ensures Valid()
      ensures items == old(items) + [NewItem(Message(
        if old(items) == [] then 0 else old(items)[|old(items)| - 1].msg.msgId, bufferId, Error, now, 0, errorString))]
      ensures messageBuffer == old(messageBuffer) && messagesWaiting == old(messagesWaiting)
      ensures nextDayChange == old(nextDayChange) && postedEvents == old(postedEvents)
      ensures backlogRequests == old(backlogRequests) && finishedFetches == old(finishedFetches)
    {
      var idx := |items|;
      var msg := Message(0, bufferId, Error, now, 0, errorString);
      if items != [] {
        msg := msg.(msgId := items[idx - 1].msg.msgId);
        InsertCopyingPredecessor(items, idx, msg);
      }
      items := items[..idx] + [NewItem(msg)] + items[idx..];
    }

    /** requestBacklog: once per buffer until its backlog arrives, asks for
        `requestCount` messages older than the buffer's oldest row, or the
        newest ones when it has none. */
    method RequestBacklog(bufferId: int, requestCount: int)
      modifies this
      ensures bufferId in old(messagesWaiting) ==>
        messagesWaiting == old(messagesWaiting) && backlogRequests == old(backlogRequests)
      ensures bufferId !in old(messagesWaiting) ==>
        messagesWaiting == old(messagesWaiting)[bufferId := requestCount]
        && backlogRequests == old(backlogRequests)
             + [BacklogRequest(bufferId, -1, OldestAvailable(items, bufferId), requestCount)]
      ensures items == old(items) && messageBuffer == old(messageBuffer)
      ensures nextDayChange == old(nextDayChange) && postedEvents == old(postedEvents)
      ensures finishedFetches == old(finishedFetches)
    {
      if bufferId in messagesWaiting {
        return;
      }
      var oldestAvailableMsgId := -1;
      var i := 0;
      while i < |items|
        invariant 0 <= i <= |items|
        invariant forall j :: 0 <= j < i ==> items[j].msg.bufferId != bufferId
        invariant oldestAvailableMsgId == -1
      {
        if items[i].msg.bufferId == bufferId {
          oldestAvailableMsgId := items[i].msg.msgId;
          break;
        }
        i := i + 1;
      }
      FirstOfUnique(items, bufferId, i);
      OldestAvailableIsFirst(items, bufferId);
      messagesWaiting := messagesWaiting[bufferId := requestCount];
      if oldestAvailableMsgId > 0 {
        backlogRequests := backlogRequests + [BacklogRequest(bufferId, -1, oldestAvailableMsgId, requestCount)];
      } else {
        backlogRequests := backlogRequests + [BacklogRequest(bufferId, -1, -1, requestCount)];
      }
    }

    /** messagesReceived: counts down the messages a buffer waits for and
        announces the end of its fetch when none are left. */
    method MessagesReceived(bufferId: int, count: int)
      modifies this
      ensures bufferId !in old(messagesWaiting) ==>
        messagesWaiting == old(messagesWaiting) && finishedFetches == old(finishedFetches)
      ensures bufferId in old(messagesWaiting) && old(messagesWaiting)[bufferId] - count <= 0 ==>
        messagesWaiting == old(messagesWaiting) - {bufferId} && finishedFetches == old(finishedFetches) + [bufferId]
      ensures bufferId in old(messagesWaiting) && old(messagesWaiting)[bufferId] - count > 0 ==>
        messagesWaiting == old(messagesWaiting)[bufferId := old(messagesWaiting)[bufferId] - count]
        && finishedFetches == old(finishedFetches)
      ensures items == old(items) && messageBuffer == old(messageBuffer)
      ensures nextDayChange == old(nextDayChange) && postedEvents == old(postedEvents)
      ensures backlogRequests == old(backlogRequests)
    {
      if bufferId !in messagesWaiting {
        return;
      }
      messagesWaiting := messagesWaiting[bufferId := messagesWaiting[bufferId] - count];
      if messagesWaiting[bufferId] <= 0 {
        messagesWaiting := messagesWaiting - {bufferId};
        finishedFetches := finishedFetches + [bufferId];
      }
    }

    /** buffersPermanentlyMerged */
    method BuffersPermanentlyMerged(bufferId1: int, bufferId2: int)
      requires Valid()
      modifies this
      ensures Valid()
      ensures items == Retagged(old(items), bufferId1, bufferId2)
      ensures messageBuffer == old(messageBuffer) && messagesWaiting == old(messagesWaiting)
      ensures nextDayChange == old(nextDayChange) && postedEvents == old(postedEvents)
      ensures backlogRequests == old(backlogRequests) && finishedFetches == old(finishedFetches)
    {
      ghost var items0 := items;
      var i := 0;
      while i < |items|
        invariant 0 <= i <= |items| == |items0|
        invariant messageBuffer == old(messageBuffer) && messagesWaiting == old(messagesWaiting)
        invariant nextDayChange == old(nextDayChange) && postedEvents == old(postedEvents)
        invariant backlogRequests == old(backlogRequests) && finishedFetches == old(finishedFetches)
        invariant items[..i] == Retagged(items0, bufferId1, bufferId2)[..i]
        invariant items[i..] == items0[i..]
      {
        if items[i].msg.bufferId == bufferId2 {
          items := items[i := items[i].(msg := items[i].msg.(bufferId := bufferId1))];
        }
        i := i + 1;
      }
      assert items == items[..i];
      RetaggedChangesOnlyBuffers(items0, bufferId1, bufferId2);
    }
  }

  /** The scan of requestBacklog stops at the buffer's first row. */
  lemma FirstOfUnique(items: seq<Item>, bufferId: int, i: nat)
    requires i <= |items|
    requires forall j :: 0 <= j < i ==> items[j].msg.bufferId != bufferId
    requires i < |items| ==> items[i].msg.bufferId == bufferId
    ensures i == FirstOf(items, bufferId)
  {}
}
