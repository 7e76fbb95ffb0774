/** The object-sync and RPC engine (SignalProxy): it keeps the set of
    connected peers, the registry of synchronised objects, the table of
    relayed signals and the table of slots attached to wire names, and
    turns incoming protocol messages into slot calls. Qt's object system is
    reduced to what the proxy observes: an object's catalog (Catalog), an
    append-only log of the slot calls it receives, its property map and its
    initialised flag. Signals the proxy emits are appended to a
    notification log; messages sent to a peer are appended to its outbox;
    posted peer-removal events are a queue. */
module Sync {
  import opened Catalog
  import ByteArrays

  /** QVariant: invalid, or a value of a registered meta-type. */
  datatype Variant = Invalid | Value(typeId: int, text: string)

  /** QMetaType ids of the parameters of the proxy's own rename slot. */
  const QStringType := 10
  const QByteArrayType := 12

  /** The wire name of the rename call, and the parameter types of the
      slot objectRenamed(QByteArray,QString,QString) attached to it. */
  const RenameFunc := "__objectRenamed__"
  const RenameArgTypes := [QByteArrayType, QStringType, QStringType]

  datatype SyncMessage = SyncMessage(className: string, objectName: string, slotName: string, params: seq<Variant>)
  datatype RpcCall = RpcCall(slotName: string, params: seq<Variant>)
  datatype InitRequest = InitRequest(className: string, objectName: string)
  datatype InitData = InitData(className: string, objectName: string, initData: map<string, Variant>)

  datatype ProtoMessage =
    | SyncMsg(sync: SyncMessage)
    | RpcMsg(rpc: RpcCall)
    | InitRequestMsg(request: InitRequest)
    | InitDataMsg(data: InitData)

  /** One slot call an object received: the method id and the arguments
      passed to it. */
  datatype Invocation = Invocation(methodId: int, args: seq<Variant>)

  /** A QObject the proxy can call into: a synchronised object, a receiver
      of attached slots or a sender of relayed signals. */
  class QtObject {
    const className: string
    const name: string
    const catalog: ExtendedMetaObject
    /** Whether the object lives in the proxy's thread. */
    const sameThread: bool
    /** What a slot with a return value returns for given arguments. */
    const answer: (int, seq<Variant>) -> string
    var initialized: bool
    var properties: map<string, Variant>
    var invocations: seq<Invocation>

    constructor(className: string, name: string, meta: seq<MetaMethod>, sameThread: bool,
                answer: (int, seq<Variant>) -> string, initialized: bool, properties: map<string, Variant>)
      ensures this.className == className && this.name == name && this.sameThread == sameThread
      ensures this.answer == answer && this.initialized == initialized && this.properties == properties
      ensures catalog.meta == meta && catalog.methodIds == MethodIds(meta, |meta|)
      ensures catalog.updatedRemotelyId == IndexOfMethod(meta, "updatedRemotely()", {Signal})
      ensures invocations == []
    {
      this.className := className;
      this.name := name;
      this.sameThread := sameThread;
      this.answer := answer;
      var e := NewExtendedMetaObject(meta);
      catalog := e;
      this.initialized := initialized;
      this.properties := properties;
      invocations := [];
    }
  }

  /** A connection to the other side (AbstractPeer). */
  class Peer {
    var isOpen: bool
    var isSecure: bool
    var outbox: seq<ProtoMessage>
    /** The proxy the peer is attached to. */
    var proxy: object?
    var parent: object?
    /** deleteLater() was called. */
    var deleteScheduled: bool

    constructor(isOpen: bool, isSecure: bool, parent: object?)
      ensures this.isOpen == isOpen && this.isSecure == isSecure && this.parent == parent
      ensures outbox == [] && proxy == null && !deleteScheduled
    {
      this.isOpen := isOpen;
      this.isSecure := isSecure;
      this.parent := parent;
      outbox := [];
      proxy := null;
      deleteScheduled := false;
    }

    method Dispatch(m: ProtoMessage)
      modifies this`outbox
      ensures outbox == old(outbox) + [m]
    {
      outbox := outbox + [m];
    }
  }

  /** Signals the proxy emits. */
  datatype Notification =
    | Connected
    | Disconnected
    | PeerRemoved(peer: Peer)
    | SecureStateChanged(secure: bool)
    | HeartBeatIntervalChanged(secs: int)
    | MaxHeartBeatCountChanged(max: int)
    | ObjectInitialized(obj: QtObject)

  // ---------------------------------------------------------------------
  // The signal relay

  /** A relayed signal: who sends it, its method id and the wire name it is
      sent under. */
  datatype RelaySignal = RelaySignal(sender: QtObject, signalId: int, signature: string)

  /** The wire name of a relayed signal: the normalised given name, or,
      when none is given, the signal's own signature behind the SIGNAL()
      code '2'. */
  function RelaySignature(sys: MetaSystem, sender: QtObject, signalId: int, funcName: string): string {
    if funcName != "" then sys.normalize(funcName)
    else "2" + MethodAt(sender.catalog.meta, signalId).signature
  }

  predicate MatchesSender(s: RelaySignal, sender: QtObject, signalId: int) {
    s.sender == sender && (signalId == -1 || s.signalId == signalId)
  }

  /** `id` is the smallest non-negative id not in use. */
  /** `after` is `before` without the entries `sender` relays, and with
      every other entry unchanged. */
  predicate DroppedSender(before: map<int, RelaySignal>, after: map<int, RelaySignal>, sender: QtObject) {
    && after.Keys <= before.Keys
    && (forall k :: k in after ==> after[k] == before[k])
    && forall k :: k in before ==> (k in after <==> before[k].sender != sender)
  }

  predicate LowestFree(slots: map<int, RelaySignal>, id: int) {
    0 <= id && id !in slots && forall j :: 0 <= j < id ==> j in slots
  }

  /** The ids 0 .. n-1. */
  function IdsBelow(n: nat): (r: set<int>)
    ensures forall j :: j in r ==> 0 <= j < n
    ensures |r| == n
  {
    if n == 0 then {} else IdsBelow(n - 1) + {n - 1}
  }

  /** A table holding every id below `n` has at least `n` entries. */
  lemma IdsBelowCount(slots: map<int, RelaySignal>, n: nat)
    requires forall j :: 0 <= j < n ==> j in slots
    ensures n <= |slots|
  {
    SubsetCardinality(IdsBelow(n), slots.Keys);
  }

  lemma {:induction false} SubsetCardinality<T>(a: set<T>, b: set<T>)
    requires a <= b
    ensures |a| <= |b|
  {
    if a != {} {
      var x :| x in a;
      SubsetCardinality(a - {x}, b - {x});
    }
  }

  /** The next entry of an iteration over a hash, whose order is not
      specified. */
  method AnyKey<K>(keys: set<K>) returns (k: K)
    requires keys != {}
    ensures k in keys
  {
    k :| k in keys;
  }

  /** SignalProxy::SignalRelay: the table of relayed signals by slot id. */
  class SignalRelay {
    var slots: map<int, RelaySignal>

    constructor()
      ensures slots == map[]
    {
      slots := map[];
    }

    /** attachSignal: the new entry takes the lowest free slot id; the
        other entries stay. */
    method AttachSignal(sys: MetaSystem, sender: QtObject, signalId: int, funcName: string) returns (ghost slotId: int)
      modifies this
      ensures LowestFree(old(slots), slotId)
      ensures slots == old(slots)[slotId := RelaySignal(sender, signalId, RelaySignature(sys, sender, signalId, funcName))]
    {
      var i := 0;
      while i in slots
        invariant slots == old(slots)
        invariant 0 <= i <= |slots|
        invariant forall j :: 0 <= j < i ==> j in slots
        decreases |slots| - i
      {
        IdsBelowCount(slots, i + 1);
        i := i + 1;
      }
      var fn := if funcName != "" then sys.normalize(funcName)
                else "2" + MethodAt(sender.catalog.meta, signalId).signature;
      slots := slots[i := RelaySignal(sender, signalId, fn)];
      slotId := i;
    }

    /** detachSignal: with signalId -1 every entry of the sender goes;
        otherwise the first matching entry found goes, and no other. */
    method DetachSignal(sender: QtObject, signalId: int)
      modifies this
      ensures signalId == -1 ==> DroppedSender(old(slots), slots, sender)
      ensures signalId != -1 && (forall k :: k in old(slots) ==> !MatchesSender(old(slots)[k], sender, signalId)) ==>
        slots == old(slots)
      ensures signalId != -1 && (exists k :: k in old(slots) && MatchesSender(old(slots)[k], sender, signalId)) ==>
        exists k :: k in old(slots) && MatchesSender(old(slots)[k], sender, signalId) && slots == old(slots) - {k}
    {
      var pending := slots.Keys;
      while pending != {}
        invariant pending <= slots.Keys && slots.Keys <= old(slots).Keys
        invariant forall k :: k in slots ==> slots[k] == old(slots)[k]
        invariant signalId == -1 ==>
          forall k :: k in old(slots) ==> (k in slots <==> k in pending || old(slots)[k].sender != sender)
        invariant signalId != -1 ==> slots == old(slots)
        invariant signalId != -1 ==>
          forall k :: k in old(slots) && k !in pending ==> !MatchesSender(old(slots)[k], sender, signalId)
        decreases pending
      {
        var k := AnyKey(pending);
        if slots[k].sender == sender && (signalId == -1 || slots[k].signalId == signalId) {
          slots := slots - {k};
          if signalId != -1 {
            return;
          }
        }
        pending := pending - {k};
      }
    }
  }

  // ---------------------------------------------------------------------
  // Packing the arguments of an outgoing call (relay qt_metacall, sync_call__)

  /** Every declared parameter type is known: type id 0 is the meta-type
      system's answer for a type it does not know. */
  predicate KnownTypes(argTypes: seq<int>) {
    forall i :: 0 <= i < |argTypes| ==> argTypes[i] != VoidType
  }

  /** The arguments as sent: the i-th raw argument as a value of the i-th
      declared type. */
  function Wrapped(argTypes: seq<int>, args: seq<string>): (r: seq<Variant>)
    requires |argTypes| <= |args|
    ensures |r| == |argTypes|
  {
    seq(|argTypes|, i requires 0 <= i < |argTypes| => Value(argTypes[i], args[i]))
  }

  /** The argument loop of qt_metacall and sync_call__: it stops, sending
      nothing, at the first parameter of unknown type. */
  method PackArguments(argTypes: seq<int>, args: seq<string>) returns (ok: bool, params: seq<Variant>)
    requires |argTypes| <= |args|
    ensures ok == KnownTypes(argTypes)
    ensures ok ==> params == Wrapped(argTypes, args)
  {
    params := [];
    var i := 0;
    while i < |argTypes|
      invariant 0 <= i <= |argTypes| && |params| == i
      invariant forall k :: 0 <= k < i ==> argTypes[k] != VoidType && params[k] == Value(argTypes[k], args[k])
    {
      if argTypes[i] == VoidType {
        return false, params;
      }
      params := params + [Value(argTypes[i], args[i])];
      i := i + 1;
    }
    ok := true;
  }

  /** What a call with known parameter types sends is what a slot with
      those parameter types accepts: every argument is a valid value of
      the declared type. */
  lemma WrappedArgumentsMatch(argTypes: seq<int>, args: seq<string>)
    requires |argTypes| <= |args| && KnownTypes(argTypes)
    ensures ArgumentsMatch(argTypes, Wrapped(argTypes, args))
  {
    var w := Wrapped(argTypes, args);
    forall i | 0 <= i < |argTypes| && i < |w|
      ensures IsValidVariant(w[i]) && w[i].typeId == argTypes[i]
    {
      assert argTypes[i] != VoidType;
    }
  }

  // ---------------------------------------------------------------------
  // Slot invocation (invokeSlot)

  function Min(a: int, b: int): int { if a < b then a else b }

  /** QVariant::isValid: a value whose type is not the invalid type 0. */
  predicate IsValidVariant(v: Variant) {
    v.Value? && v.typeId != VoidType
  }

  /** The supplied arguments that meet a declared parameter are valid and
      of the declared type; further arguments are not looked at. */
  predicate ArgumentsMatch(argTypes: seq<int>, params: seq<Variant>) {
    forall i :: 0 <= i < |argTypes| && i < |params| ==> IsValidVariant(params[i]) && params[i].typeId == argTypes[i]
  }

  /** invokeSlot's gate: enough arguments for the parameters without
      default, each used argument valid and of the declared type, the
      receiver in this thread, and an id the receiver's class handles
      (a negative id is handled, as a no-op, by QObject itself). */
  predicate InvokeAccepted(sys: MetaSystem, e: ExtendedMetaObject, sameThread: bool, methodId: int, params: seq<Variant>) {
    var d := DescriptorOf(sys, e, methodId);
    d.minArgCount <= |params| && ArgumentsMatch(d.argTypes, params) && sameThread && methodId < |e.meta|
  }

  /** The arguments a slot receives: the supplied ones up to its parameter
      count. */
  function CallArgs(sys: MetaSystem, e: ExtendedMetaObject, methodId: int, params: seq<Variant>): (r: seq<Variant>)
    ensures |r| == Min(|params|, |DescriptorOf(sys, e, methodId).argTypes|)
  {
    params[..Min(|params|, |DescriptorOf(sys, e, methodId).argTypes|)]
  }

  /** The slot call an accepted invocation makes: none for a negative id. */
  function Invoked(sys: MetaSystem, e: ExtendedMetaObject, methodId: int, params: seq<Variant>): seq<Invocation> {
    if 0 <= methodId then [Invocation(methodId, CallArgs(sys, e, methodId, params))] else []
  }

  /** The value an invocation hands back: invalid for a void return type,
      else the receiver's answer, or the type's default when no slot ran. */
  function ReturnValue(sys: MetaSystem, receiver: QtObject, methodId: int, params: seq<Variant>, returnType: int, ok: bool): Variant {
    if returnType == VoidType then Invalid
    else if ok && 0 <= methodId then Value(returnType, receiver.answer(methodId, CallArgs(sys, receiver.catalog, methodId, params)))
    else Value(returnType, "")
  }

  /** The argument loop of invokeSlot. */
  method CheckArguments(argTypes: seq<int>, params: seq<Variant>) returns (ok: bool)
    ensures ok == ArgumentsMatch(argTypes, params)
  {
    var numArgs := if |params| < |argTypes| then |params| else |argTypes|;
    var i := 0;
    while i < numArgs
      invariant 0 <= i <= numArgs
      invariant forall k :: 0 <= k < i ==> IsValidVariant(params[k]) && params[k].typeId == argTypes[k]
    {
      if !IsValidVariant(params[i]) {
        return false;
      }
      if argTypes[i] != params[i].typeId {
        return false;
      }
      i := i + 1;
    }
    return true;
  }

  /** Arguments past the declared parameters change neither whether a
      call goes through nor what the slot receives. */
  lemma ExtraParamsIgnored(sys: MetaSystem, e: ExtendedMetaObject, sameThread: bool, methodId: int,
                           params: seq<Variant>, extra: seq<Variant>)
    requires |DescriptorOf(sys, e, methodId).argTypes| <= |params|
    ensures InvokeAccepted(sys, e, sameThread, methodId, params + extra) == InvokeAccepted(sys, e, sameThread, methodId, params)
    ensures Invoked(sys, e, methodId, params + extra) == Invoked(sys, e, methodId, params)
  {
    var n := |DescriptorOf(sys, e, methodId).argTypes|;
    assert (params + extra)[..n] == params[..n];
    assert forall i :: 0 <= i < n ==> (params + extra)[i] == params[i];
  }

  /** A call to a negative method id (an absent updatedRemotely() signal)
      goes through, without calling anything, whenever the receiver is in
      this thread. */
  lemma NegativeIdIsNoOp(sys: MetaSystem, e: ExtendedMetaObject, sameThread: bool, methodId: int, params: seq<Variant>)
    requires methodId < 0
    ensures InvokeAccepted(sys, e, sameThread, methodId, params) == sameThread
    ensures Invoked(sys, e, methodId, params) == []
  {
    assert MethodAt(e.meta, methodId) == InvalidMethod;
    assert Count(InvalidMethod.signature, '=') == 0;
  }

  // ---------------------------------------------------------------------
  // Attached slots

  /** The receiver of an attached wire name: a slot of an object, or the
      proxy's own objectRenamed slot. */
  datatype SlotTarget = ObjectSlot(receiver: QtObject, methodId: int) | RenameSlot

  datatype AttachedSlot = AttachedSlot(funcName: string, target: SlotTarget)

  predicate Targets(a: AttachedSlot, receiver: QtObject) {
    a.target.ObjectSlot? && a.target.receiver == receiver
  }

  /** The attached slots after detachSlots(receiver), in order. */
  function WithoutReceiver(slots: seq<AttachedSlot>, receiver: QtObject): seq<AttachedSlot> {
    if slots == [] then []
    else WithoutReceiver(slots[..|slots| - 1], receiver)
         + (if Targets(slots[|slots| - 1], receiver) then [] else [slots[|slots| - 1]])
  }

  /** detachSlots keeps exactly the entries of other receivers. */
  lemma {:induction false} WithoutReceiverMeaning(slots: seq<AttachedSlot>, receiver: QtObject)
    ensures forall a :: a in WithoutReceiver(slots, receiver) <==> a in slots && !Targets(a, receiver)
  {
    if slots != [] {
      var init, last := slots[..|slots| - 1], slots[|slots| - 1];
      WithoutReceiverMeaning(init, receiver);
      ByteArrays.InitLast(slots);
    }
  }

  /** detachSlots never adds entries. */
  lemma {:induction false} WithoutReceiverShrinks(slots: seq<AttachedSlot>, receiver: QtObject)
    ensures |WithoutReceiver(slots, receiver)| <= |slots|
  {
    if slots != [] {
      WithoutReceiverShrinks(slots[..|slots| - 1], receiver);
    }
  }

  /** detachSlots for a receiver with no entries changes nothing. */
  lemma {:induction false} WithoutReceiverUnchanged(slots: seq<AttachedSlot>, receiver: QtObject)
    requires forall a :: a in slots ==> !Targets(a, receiver)
    ensures WithoutReceiver(slots, receiver) == slots
  {
    if slots != [] {
      var init, last := slots[..|slots| - 1], slots[|slots| - 1];
      assert !Targets(last, receiver) by {
        assert last in slots;
      }
      forall a | a in init
        ensures !Targets(a, receiver)
      {
        assert a in slots;
      }
      WithoutReceiverUnchanged(init, receiver);
      assert WithoutReceiver(slots, receiver) == init + [last];
      ByteArrays.InitLast(slots);
    }
  }

  /** The entries attached to one wire name, newest first (the order of
      QMultiHash::constFind). */
  function Matching(slots: seq<AttachedSlot>, name: string): seq<AttachedSlot> {
    if slots == [] then []
    else Matching(slots[..|slots| - 1], name)
         + (if slots[|slots| - 1].funcName == name then [slots[|slots| - 1]] else [])
  }

  /** The entries for a name are the attached entries with that name. */
  lemma {:induction false} MatchingMeaning(slots: seq<AttachedSlot>, name: string)
    ensures forall a :: a in Matching(slots, name) <==> a in slots && a.funcName == name
  {
    if slots != [] {
      var init := slots[..|slots| - 1];
      MatchingMeaning(init, name);
      ByteArrays.InitLast(slots);
    }
  }

  /** Whether a delivered rpc call goes through to its target. */
  predicate TargetAccepts(sys: MetaSystem, t: SlotTarget, params: seq<Variant>) {
    match t
    case ObjectSlot(r, id) => InvokeAccepted(sys, r.catalog, r.sameThread, id, params)
    case RenameSlot => |RenameArgTypes| <= |params| && ArgumentsMatch(RenameArgTypes, params)
  }

  /** The slot calls `o` receives from delivering a call to `entries`. */
  function RpcInvocations(sys: MetaSystem, entries: seq<AttachedSlot>, o: QtObject, params: seq<Variant>): seq<Invocation> {
    if entries == [] then []
    else
      var last := entries[|entries| - 1];
      RpcInvocations(sys, entries[..|entries| - 1], o, params)
      + RpcStep(sys, last, o, params)
  }

  /** The slot calls `o` receives from delivering a call to one entry. */
  function RpcStep(sys: MetaSystem, entry: AttachedSlot, o: QtObject, params: seq<Variant>): seq<Invocation> {
    if Targets(entry, o) && TargetAccepts(sys, entry.target, params)
    then Invoked(sys, o.catalog, entry.target.methodId, params) else []
  }

  /** Delivering to one more entry adds that entry's calls. */
  lemma RpcInvocationsNext(sys: MetaSystem, entries: seq<AttachedSlot>, i: int, params: seq<Variant>)
    requires 0 <= i < |entries|
    ensures forall o ::
              RpcInvocations(sys, entries[..i + 1], o, params)
              == RpcInvocations(sys, entries[..i], o, params) + RpcStep(sys, entries[i], o, params)
  {
    assert entries[..i + 1][..i] == entries[..i];
  }

  function ObjectTargets(entries: seq<AttachedSlot>): set<QtObject> {
    set a | a in entries && a.target.ObjectSlot? :: a.target.receiver
  }

  predicate NoRename(entries: seq<AttachedSlot>) {
    forall a :: a in entries ==> a.target.ObjectSlot?
  }

  // ---------------------------------------------------------------------
  // The sync registry

  type Registry = map<string, map<string, QtObject>>

  function ClassSlaves(slave: Registry, className: string): map<string, QtObject> {
    if className in slave then slave[className] else map[]
  }

  predicate Registered(slave: Registry, className: string, objectName: string) {
    className in slave && objectName in slave[className]
  }

  /** objectRenamed's precondition for acting. */
  predicate RenameApplies(slave: Registry, className: string, newName: string, oldName: string) {
    Registered(slave, className, oldName) && oldName != newName
  }

  /** The registry after objectRenamed. */
  function Renamed(slave: Registry, className: string, newName: string, oldName: string): Registry
    requires RenameApplies(slave, className, newName, oldName)
  {
    slave[className := (slave[className] - {oldName})[newName := slave[className][oldName]]]
  }

  /** Renaming moves the entry: the new name holds the same object, the old
      name is gone, and every other entry stays. */
  lemma RenamedMoves(slave: Registry, className: string, newName: string, oldName: string)
    requires RenameApplies(slave, className, newName, oldName)
    ensures var r := Renamed(slave, className, newName, oldName);
      Registered(r, className, newName) && r[className][newName] == slave[className][oldName]
      && !Registered(r, className, oldName)
      && r.Keys == slave.Keys
      && (forall c, n :: c != className && Registered(slave, c, n) ==> Registered(r, c, n) && r[c][n] == slave[c][n])
      && (forall n :: n != newName && n != oldName ==>
            (Registered(slave, className, n) <==> Registered(r, className, n))
            && (Registered(r, className, n) ==> r[className][n] == slave[className][n]))
  {}

  predicate Holds(slave: Registry, className: string, obj: QtObject) {
    className in slave && obj.name in slave[className] && slave[className][obj.name] == obj
  }

  // ---------------------------------------------------------------------
  // The sync protocol

  /** The slot calls a routed sync message makes on its receiver: the slot
      itself and then updatedRemotely(), or nothing when the slot call is
      refused. */
  function SyncInvocations(sys: MetaSystem, r: QtObject, msg: SyncMessage): seq<Invocation>
    requires msg.slotName in r.catalog.methodIds
  {
    var e := r.catalog;
    var slotId := e.methodIds[msg.slotName];
    if InvokeAccepted(sys, e, r.sameThread, slotId, msg.params) then
      Invoked(sys, e, slotId, msg.params)
      + (if InvokeAccepted(sys, e, r.sameThread, e.updatedRemotelyId, []) then Invoked(sys, e, e.updatedRemotelyId, []) else [])
    else []
  }

  /** The reply parameters: the original parameters when the receive slot
      takes more than one argument, then the return value. */
  function ReplyParams(params: seq<Variant>, receiverArgCount: nat, returnValue: Variant): (r: seq<Variant>)
    ensures |r| > 0 && r[|r| - 1] == returnValue
    ensures receiverArgCount > 1 ==> r[..|r| - 1] == params
    ensures receiverArgCount <= 1 ==> r == [returnValue]
  {
    (if receiverArgCount > 1 then params else []) + [returnValue]
  }

  /** The reply a routed sync message sends back: one sync message to the
      matching receive slot when the call went through, returned a value
      and the slot has a receiver; else nothing. */
  function SyncReply(sys: MetaSystem, r: QtObject, msg: SyncMessage): seq<ProtoMessage>
    requires msg.slotName in r.catalog.methodIds
  {
    var e := r.catalog;
    var slotId := e.methodIds[msg.slotName];
    var d := DescriptorOf(sys, e, slotId);
    var receiveMap := ReceiveMap(sys, e.meta);
    if InvokeAccepted(sys, e, r.sameThread, slotId, msg.params) && d.returnType != VoidType && slotId in receiveMap then
      var receiverId := receiveMap[slotId];
      var returnValue := ReturnValue(sys, r, slotId, msg.params, d.returnType, true);
      [SyncMsg(SyncMessage(msg.className, msg.objectName, DescriptorOf(sys, e, receiverId).methodName,
        ReplyParams(msg.params, |DescriptorOf(sys, e, receiverId).argTypes|, returnValue)))]
    else []
  }

  /** Only request slots answer, and a request slot is server-bound: a
      proxy that routes a sync call to a slot that replies is a server,
      and the reply names a slot whose name starts with "receive". */
  lemma RepliesOnlyFromServer(sys: MetaSystem, r: QtObject, msg: SyncMessage, mode: ProxyMode)
    requires msg.slotName in r.catalog.methodIds
    requires DescriptorOf(sys, r.catalog, r.catalog.methodIds[msg.slotName]).receiverMode == mode
    requires SyncReply(sys, r, msg) != []
    ensures mode == Server
    ensures IsRequest(sys, MethodAt(r.catalog.meta, r.catalog.methodIds[msg.slotName]))
  {
    var e := r.catalog;
    var slotId := e.methodIds[msg.slotName];
    ReceiveMapPairs(sys, e.meta, slotId);
    DescriptorMeaning(sys, e.meta[slotId]);
  }

  /** SignalProxy. */
  class SignalProxy {
    var mode: ProxyMode
    var peers: set<Peer>
    var syncSlave: Registry
    const relay: SignalRelay
    var attachedSlots: seq<AttachedSlot>
    var secure: bool
    var heartBeatInterval: int
    var maxHeartBeatCount: int
    var notifications: seq<Notification>
    var removalQueue: seq<Peer>
    const sys: MetaSystem

    /** A client talks to at most one peer. */
    ghost predicate Valid()
      reads this
    {
      mode == Client ==> |peers| <= 1
    }

    /** No peer was sent anything and no removal was queued. */
    twostate predicate Quiet(ps: set<Peer>)
      reads this, ps
    {
      removalQueue == old(removalQueue) && forall p :: p in ps ==> p.outbox == old(p.outbox)
    }

    /** dispatch(msg) happened: every open peer got the message, every
        closed peer was queued once for removal. */
    twostate predicate Broadcast(ps: set<Peer>, msg: ProtoMessage)
      reads this, ps
    {
      (forall p :: p in ps ==> p.outbox == old(p.outbox) + (if p.isOpen then [msg] else []))
      && |old(removalQueue)| <= |removalQueue| && removalQueue[..|old(removalQueue)|] == old(removalQueue)
      && (forall p :: p in ps && !p.isOpen ==> p in removalQueue[|old(removalQueue)|..])
      && (forall i :: |old(removalQueue)| <= i < |removalQueue| ==> removalQueue[i] in ps && !removalQueue[i].isOpen)
      && (forall i, j :: |old(removalQueue)| <= i < j < |removalQueue| ==> removalQueue[i] != removalQueue[j])
    }

    /** Secure: at least one peer and every peer secure. */
    ghost function AllSecure(): bool
      reads this, peers
    {
      peers != {} && forall p :: p in peers ==> p.isSecure
    }

    function SecureNotice(was: bool, now: bool): seq<Notification> {
      if was != now then [SecureStateChanged(now)] else []
    }

    function RenameEntry(): AttachedSlot {
      AttachedSlot(sys.normalize(RenameFunc), RenameSlot)
    }

    /** The object registered under a class and instance name, if any. */
    function Receivers(className: string, objectName: string): set<QtObject>
      reads this
    {
      if Registered(syncSlave, className, objectName) then {syncSlave[className][objectName]} else {}
    }

    constructor(mode: ProxyMode, sys: MetaSystem)
      ensures Valid() && this.mode == mode && this.sys == sys
      ensures peers == {} && syncSlave == map[] && fresh(relay) && relay.slots == map[]
      ensures attachedSlots == (if mode == Client then [RenameEntry()] else [])
      ensures heartBeatInterval == 30 && maxHeartBeatCount == 2 && !secure && removalQueue == []
      ensures notifications == [HeartBeatIntervalChanged(30), MaxHeartBeatCountChanged(2)]
    {
      this.sys := sys;
      relay := new SignalRelay();
      this.mode := Client;
      peers := {};
      syncSlave := map[];
      attachedSlots := [];
      secure := false;
      heartBeatInterval := 0;
      maxHeartBeatCount := 0;
      notifications := [];
      removalQueue := [];
      new;
      SetProxyMode(mode);
      Init();
    }

    /** setProxyMode: refused while peers are connected; a client attaches
        its rename slot. */
    method SetProxyMode(m: ProxyMode)
      requires Valid()
      modifies this`mode, this`attachedSlots
      ensures Valid()
      ensures peers != {} ==> mode == old(mode) && attachedSlots == old(attachedSlots)
      ensures peers == {} ==>
        mode == m && attachedSlots == (if m == Client then [RenameEntry()] + old(attachedSlots) else old(attachedSlots))
    {
      if |peers| > 0 {
        return;
      }
      mode := m;
      if m == Client {
        attachedSlots := [RenameEntry()] + attachedSlots;
      }
    }

    /** init: heartbeat defaults and the secure flag. */
    method Init()
      modifies this`heartBeatInterval, this`maxHeartBeatCount, this`secure, this`notifications
      ensures heartBeatInterval == 30 && maxHeartBeatCount == 2
      ensures secure == AllSecure()
      ensures notifications == old(notifications) + [HeartBeatIntervalChanged(30), MaxHeartBeatCountChanged(2)]
        + SecureNotice(false, secure)
    {
      heartBeatInterval := 0;
      maxHeartBeatCount := 0;
      SetHeartBeatInterval(30);
      SetMaxHeartBeatCount(2);
      secure := false;
      UpdateSecureState();
    }

    method SetHeartBeatInterval(secs: int)
      modifies this`heartBeatInterval, this`notifications
      ensures heartBeatInterval == secs
      ensures notifications == old(notifications) + (if old(heartBeatInterval) != secs then [HeartBeatIntervalChanged(secs)] else [])
    {
      if heartBeatInterval != secs {
        heartBeatInterval := secs;
        notifications := notifications + [HeartBeatIntervalChanged(secs)];
      }
    }

    method SetMaxHeartBeatCount(max: int)
      modifies this`maxHeartBeatCount, this`notifications
      ensures maxHeartBeatCount == max
      ensures notifications == old(notifications) + (if old(maxHeartBeatCount) != max then [MaxHeartBeatCountChanged(max)] else [])
    {
      if maxHeartBeatCount != max {
        maxHeartBeatCount := max;
        notifications := notifications + [MaxHeartBeatCountChanged(max)];
      }
    }

    /** updateSecureState: the flag is the conjunction over the peers,
        false without peers; the change is announced. */
    method UpdateSecureState()
      modifies this`secure, this`notifications
      ensures secure == AllSecure()
      ensures notifications == old(notifications) + SecureNotice(old(secure), secure)
    {
      var wasSecure := secure;
      var s := |peers| > 0;
      var ps := peers;
      while ps != {}
        invariant ps <= peers
        invariant s == (peers != {} && forall p :: p in peers && p !in ps ==> p.isSecure)
        decreases ps
      {
        var p :| p in ps;
        s := s && p.isSecure;
        ps := ps - {p};
      }
      secure := s;
      if wasSecure != secure {
        notifications := notifications + [SecureStateChanged(secure)];
      }
    }

    /** addPeer: a known peer is accepted as it is; an open new peer is
        accepted unless a client already has one. */
    method AddPeer(peer: Peer?) returns (ok: bool)
      requires Valid()
      modifies this`peers, this`secure, this`notifications
      modifies (if peer == null then {} else {peer})`parent, (if peer == null then {} else {peer})`proxy
      ensures Valid()
      ensures ok <==> peer != null && (peer in old(peers) || (peer.isOpen && (mode == Server || old(peers) == {})))
      ensures !ok || peer in old(peers) ==>
        peers == old(peers) && secure == old(secure) && notifications == old(notifications)
        && (peer != null ==> peer.parent == old(peer.parent) && peer.proxy == old(peer.proxy))
      ensures ok && peer !in old(peers) ==> Joined(peer)
    {
      if peer == null {
        return false;
      }
      if peer in peers {
        return true;
      }
      if !peer.isOpen {
        return false;
      }
      if mode == Client {
        if |peers| > 0 {
          return false;
        }
      }
      Join(peer);
      return true;
    }

    /** What accepting a new peer does: it joins the set, is owned by the
        proxy unless it has a parent, learns its proxy, and the proxy
        announces the first connection and the secure state. */
    twostate predicate Joined(peer: Peer)
      reads this, peer, peers
    {
      && peers == old(peers) + {peer}
      && peer.proxy == this
      && peer.parent == (if old(peer.parent) == null then this else old(peer.parent))
      && secure == AllSecure()
      && notifications == old(notifications) + (if old(peers) == {} then [Connected] else []) + SecureNotice(old(secure), secure)
    }

    method Join(peer: Peer)
      requires peer !in peers
      modifies this`peers, this`secure, this`notifications, peer`parent, peer`proxy
      ensures Joined(peer)
    {
      if peer.parent == null {
        peer.parent := this;
      }
      peers := peers + {peer};
      peer.proxy := this;
      if |peers| == 1 {
        notifications := notifications + [Connected];
      }
      UpdateSecureState();
    }

    /** removePeer */
    method RemovePeer(peer: Peer?)
      requires Valid()
      modifies this`peers, this`secure, this`notifications
      modifies (if peer == null then {} else {peer})`proxy, (if peer == null then {} else {peer})`deleteScheduled
      ensures Valid()
      ensures peer == null || peer !in old(peers) ==>
        peers == old(peers) && secure == old(secure) && notifications == old(notifications)
        && (peer != null ==> peer.proxy == old(peer.proxy) && peer.deleteScheduled == old(peer.deleteScheduled))
      ensures peer != null && peer in old(peers) ==> Left(peer)
    {
      if peer == null {
        return;
      }
      if |peers| == 0 {
        return;
      }
      if peer !in peers {
        return;
      }
      Leave(peer);
    }

    /** What removing a known peer does: it leaves the set and forgets the
        proxy, is scheduled for deletion when the proxy owns it, and the
        proxy announces the removal, the secure state and, when no peer is
        left, the disconnection. */
    twostate predicate Left(peer: Peer)
      reads this, peer, peers
    {
      && peers == old(peers) - {peer}
      && peer.proxy == null
      && peer.deleteScheduled == (old(peer.deleteScheduled) || peer.parent == this)
      && secure == AllSecure()
      && notifications == old(notifications) + [PeerRemoved(peer)] + SecureNotice(old(secure), secure)
           + (if peers == {} then [Disconnected] else [])
    }

    method Leave(peer: Peer)
      requires Valid() && peer in peers
      modifies this`peers, this`secure, this`notifications, peer`proxy, peer`deleteScheduled
      ensures Valid() && Left(peer)
    {
      peer.proxy := null;
      peers := peers - {peer};
      notifications := notifications + [PeerRemoved(peer)];
      if peer.parent == this {
        peer.deleteScheduled := true;
      }
      UpdateSecureState();
      if |peers| == 0 {
        notifications := notifications + [Disconnected];
      }
    }

    /** removeAllPeers: every peer is removed, and announced. */
    method RemoveAllPeers()
      requires Valid()
      modifies this`peers, this`secure, this`notifications, peers`proxy, peers`deleteScheduled
      ensures Valid() && peers == {}
      ensures forall p :: p in old(peers) ==> p.proxy == null
      ensures old(notifications) <= notifications
      ensures forall p :: p in old(peers) ==> PeerRemoved(p) in notifications[|old(notifications)|..]
      ensures old(peers) == {} ==> notifications == old(notifications) && secure == old(secure)
      ensures old(peers) != {} ==> !secure && notifications[|notifications| - 1] == Disconnected
    {
      var ps := peers;
      ghost var at: map<Peer, int> := map[];
      while ps != {}
        invariant Valid() && peers == ps && ps <= old(peers)
        invariant at.Keys == old(peers) - ps
        invariant old(notifications) <= notifications
        invariant forall p :: p in at ==>
          p.proxy == null
          && |old(notifications)| <= at[p] < |notifications| && notifications[at[p]] == PeerRemoved(p)
        invariant ps == old(peers) ==> notifications == old(notifications) && secure == old(secure)
        invariant ps != old(peers) && ps == {} ==>
          !secure && |notifications| > 0 && notifications[|notifications| - 1] == Disconnected
        decreases ps
      {
        var p :| p in ps;
        at := RemoveNext(p, at, old(notifications));
        ps := ps - {p};
      }
      forall p | p in old(peers)
        ensures PeerRemoved(p) in notifications[|old(notifications)|..]
      {
        assert notifications[|old(notifications)|..][at[p] - |old(notifications)|] == PeerRemoved(p);
      }
    }

    /** One round of removeAllPeers; `at` tells where each removed peer's
        announcement is. */
    method RemoveNext(p: Peer, ghost at: map<Peer, int>, ghost base: seq<Notification>) returns (ghost at': map<Peer, int>)
      requires Valid() && p in peers && base <= notifications
      requires forall q :: q in at ==> |base| <= at[q] < |notifications| && notifications[at[q]] == PeerRemoved(q)
      modifies this`peers, this`secure, this`notifications, p`proxy, p`deleteScheduled
      ensures Valid() && peers == old(peers) - {p} && base <= notifications
      ensures p.proxy == null
      ensures at'.Keys == at.Keys + {p}
      ensures forall q :: q in at' ==> |base| <= at'[q] < |notifications| && notifications[at'[q]] == PeerRemoved(q)
      ensures peers == {} ==> !secure && |notifications| > 0 && notifications[|notifications| - 1] == Disconnected
    {
      ghost var before := notifications;
      Leave(p);
      assert before <= notifications;
      assert notifications[|before|] == PeerRemoved(p);
      at' := at[p := |before|];
    }

    /** customEvent(RemovePeerEvent): the oldest queued removal is done. */
    method ProcessRemovePeerEvent()
      requires Valid()
      modifies this`peers, this`secure, this`notifications, this`removalQueue
      modifies removalQueue`proxy, removalQueue`deleteScheduled
      ensures Valid()
      ensures old(removalQueue) == [] ==>
        removalQueue == [] && peers == old(peers) && secure == old(secure) && notifications == old(notifications)
      ensures old(removalQueue) != [] ==>
        removalQueue == old(removalQueue)[1..]
        && peers == old(peers) - {old(removalQueue)[0]}
        && (old(removalQueue)[0] in old(peers) <==> notifications != old(notifications))
      ensures old(removalQueue) != [] && old(removalQueue)[0] in old(peers) ==> Left(old(removalQueue)[0])
      ensures old(removalQueue) != [] && old(removalQueue)[0] !in old(peers) ==>
        secure == old(secure)
        && old(removalQueue)[0].proxy == old(removalQueue[0].proxy)
        && old(removalQueue)[0].deleteScheduled == old(removalQueue[0].deleteScheduled)
    {
      if removalQueue == [] {
        return;
      }
      var peer := removalQueue[0];
      removalQueue := removalQueue[1..];
      RemovePeer(peer);
    }

    /** dispatch: a message to every open peer; closed peers are queued for
        removal. */
    method Dispatch(msg: ProtoMessage)
      modifies peers`outbox, this`removalQueue
      ensures Broadcast(old(peers), msg)
    {
      var ps := peers;
      ghost var at: map<Peer, int> := map[];
      while ps != {}
        invariant ps <= peers
        invariant forall p :: p in peers && p !in ps ==> p.outbox == old(p.outbox) + (if p.isOpen then [msg] else [])
        invariant forall p :: p in ps ==> p.outbox == old(p.outbox)
        invariant |old(removalQueue)| <= |removalQueue| && removalQueue[..|old(removalQueue)|] == old(removalQueue)
        invariant forall p :: p in peers && p !in ps && !p.isOpen ==>
          p in at && |old(removalQueue)| <= at[p] < |removalQueue| && removalQueue[at[p]] == p
        invariant forall i :: |old(removalQueue)| <= i < |removalQueue| ==>
          removalQueue[i] in peers && removalQueue[i] !in ps && !removalQueue[i].isOpen
          && removalQueue[i] in at && at[removalQueue[i]] == i
        decreases ps
      {
        var p :| p in ps;
        if p.isOpen {
          p.Dispatch(msg);
        } else {
          at := at[p := |removalQueue|];
          removalQueue := removalQueue + [p];
        }
        ps := ps - {p};
      }
      forall p | p in peers && !p.isOpen
        ensures p in removalQueue[|old(removalQueue)|..]
      {
        assert removalQueue[|old(removalQueue)|..][at[p] - |old(removalQueue)|] == p;
      }
    }

    /** requestInit: a client asks for the state of an uninitialised
        object. */
    method RequestInit(obj: QtObject)
      modifies peers`outbox, this`removalQueue
      ensures mode == Server || obj.initialized ==> Quiet(old(peers))
      ensures mode == Client && !obj.initialized ==> Broadcast(old(peers), InitRequestMsg(InitRequest(obj.className, obj.name)))
    {
      if mode == Server || obj.initialized {
        return;
      }
      Dispatch(InitRequestMsg(InitRequest(obj.className, obj.name)));
    }

    /** SignalRelay::qt_metacall, for a call `id` counted past QObject's
        own methods: when the call invokes a relayed signal of `caller`, it
        goes to every peer as an rpc call under the signal's wire name,
        unless one of the signal's parameter types is unknown, in which case
        the call is abandoned and the id comes back as it was; otherwise an
        invocation's id comes back less the number of relay slots. `args` are the signal's raw
        arguments. */
    method RelayCall(invoke: bool, id: int, caller: QtObject, args: seq<string>) returns (rest: int)
      requires invoke && id in relay.slots ==>
        |DescriptorOf(sys, caller.catalog, relay.slots[id].signalId).argTypes| <= |args|
      modifies peers`outbox, this`removalQueue
      ensures rest == (if id < 0 || !invoke then id
                       else if id in relay.slots && !KnownTypes(DescriptorOf(sys, caller.catalog, relay.slots[id].signalId).argTypes) then id
                       else id - |relay.slots|)
      ensures id < 0 || !invoke || id !in relay.slots ==> Quiet(old(peers))
      ensures id >= 0 && invoke && id in relay.slots ==>
        var signal := relay.slots[id];
        var argTypes := DescriptorOf(sys, caller.catalog, signal.signalId).argTypes;
        (!KnownTypes(argTypes) ==> Quiet(old(peers)))
        && (KnownTypes(argTypes) ==> Broadcast(old(peers), RpcMsg(RpcCall(signal.signature, Wrapped(argTypes, args)))))
    {
      if id < 0 {
        return id;
      }
      if invoke {
        if id in relay.slots {
          var signal := relay.slots[id];
          var argTypes := DescriptorOf(sys, caller.catalog, signal.signalId).argTypes;
          var ok, params := PackArguments(argTypes, args);
          if !ok {
            return id;
          }
          Dispatch(RpcMsg(RpcCall(signal.signature, params)));
        }
        return id - |relay.slots|;
      }
      return id;
    }

    /** sync_call__: a call on a synchronised object made in the proxy's
        own mode goes to every peer as a sync message under the object's
        class and name, unless one of the method's parameter types is
        unknown; a call made for the other mode sends nothing. `methodId`
        is the object's method id for `funcname` (the lookup lives in
        signalproxy.h, which is not part of this model) and `args` are the
        raw arguments. */
    method SendSync(obj: QtObject, modeType: ProxyMode, funcname: string, methodId: int, args: seq<string>)
      requires modeType == mode ==> |DescriptorOf(sys, obj.catalog, methodId).argTypes| <= |args|
      modifies peers`outbox, this`removalQueue
      ensures var argTypes := DescriptorOf(sys, obj.catalog, methodId).argTypes;
        (modeType != mode || !KnownTypes(argTypes) ==> Quiet(old(peers)))
        && (modeType == mode && KnownTypes(argTypes) ==>
              Broadcast(old(peers), SyncMsg(SyncMessage(obj.className, obj.name, funcname, Wrapped(argTypes, args)))))
    {
      if modeType != mode {
        return;
      }
      var argTypes := DescriptorOf(sys, obj.catalog, methodId).argTypes;
      var ok, params := PackArguments(argTypes, args);
      if !ok {
        return;
      }
      Dispatch(SyncMsg(SyncMessage(obj.className, obj.name, funcname, params)));
    }

    /** objectRenamed: the registry entry moves to the new name, and a
        client asks again for the object's state. */
    method ObjectRenamed(className: string, newName: string, oldName: string)
      modifies this`syncSlave, peers`outbox, this`removalQueue
      ensures !RenameApplies(old(syncSlave), className, newName, oldName) ==> syncSlave == old(syncSlave) && Quiet(old(peers))
      ensures RenameApplies(old(syncSlave), className, newName, oldName) ==>
        var obj := old(syncSlave)[className][oldName];
        syncSlave == Renamed(old(syncSlave), className, newName, oldName)
        && (mode == Server || obj.initialized ==> Quiet(old(peers)))
        && (mode == Client && !obj.initialized ==> Broadcast(old(peers), InitRequestMsg(InitRequest(obj.className, obj.name))))
    {
      if className in syncSlave && oldName in syncSlave[className] && oldName != newName {
        var obj := syncSlave[className][oldName];
        syncSlave := syncSlave[className := (syncSlave[className] - {oldName})[newName := obj]];
        RequestInit(obj);
      }
    }

    /** renameObject: a server renames locally and tells its peers. */
    method RenameObject(obj: QtObject, newName: string, oldName: string)
      modifies this`syncSlave, peers`outbox, this`removalQueue
      ensures mode == Client ==> syncSlave == old(syncSlave) && Quiet(old(peers))
      ensures mode == Server ==>
        syncSlave == (if RenameApplies(old(syncSlave), obj.className, newName, oldName)
                      then Renamed(old(syncSlave), obj.className, newName, oldName) else old(syncSlave))
        && Broadcast(old(peers), RpcMsg(RpcCall(RenameFunc,
             [Value(QByteArrayType, obj.className), Value(QStringType, newName), Value(QStringType, oldName)])))
    {
      if mode == Client {
        return;
      }
      var className := obj.className;
      ObjectRenamed(className, newName, oldName);
      Dispatch(RpcMsg(RpcCall(RenameFunc,
        [Value(QByteArrayType, className), Value(QStringType, newName), Value(QStringType, oldName)])));
    }

    /** attachSignal: relay a signal of `sender` under a wire name. */
    method AttachSignal(sender: QtObject, signal: string, sigName: string) returns (ok: bool, ghost slotId: int)
      modifies relay
      ensures var id := IndexOfMethod(sender.catalog.meta, Mid(sys.normalize(signal), 1), AnyKind);
        (ok <==> id != -1 && sender.catalog.meta[id].methodType == Signal)
        && (!ok ==> relay.slots == old(relay.slots))
        && (ok ==>
              LowestFree(old(relay.slots), slotId)
              && relay.slots == old(relay.slots)[slotId := RelaySignal(sender, id, RelaySignature(sys, sender, id, sigName))])
    {
      var sig := Mid(sys.normalize(signal), 1);
      var methodId := IndexOfMethod(sender.catalog.meta, sig, AnyKind);
      if methodId == -1 || MethodAt(sender.catalog.meta, methodId).methodType != Signal {
        return false, -1;
      }
      slotId := relay.AttachSignal(sys, sender, methodId, sigName);
      ok := true;
    }

    /** attachSlot: a slot of `recv` receives rpc calls under a wire
        name; the newest attachment comes first. */
    method AttachSlot(sigName: string, recv: QtObject, slot: string) returns (ok: bool)
      modifies this`attachedSlots
      ensures var id := IndexOfMethod(recv.catalog.meta, Mid(sys.normalize(slot), 1), AnyKind);
        (ok <==> id != -1 && recv.catalog.meta[id].methodType != Method)
        && (ok ==> attachedSlots == [AttachedSlot(sys.normalize(sigName), ObjectSlot(recv, id))] + old(attachedSlots))
        && (!ok ==> attachedSlots == old(attachedSlots))
    {
      var methodId := IndexOfMethod(recv.catalog.meta, Mid(sys.normalize(slot), 1), AnyKind);
      if methodId == -1 || MethodAt(recv.catalog.meta, methodId).methodType == Method {
        return false;
      }
      var funcName := sys.normalize(sigName);
      attachedSlots := [AttachedSlot(funcName, ObjectSlot(recv, methodId))] + attachedSlots;
      return true;
    }

    /** detachSlots: every attachment of `receiver` goes, in one pass. */
    method DetachSlots(receiver: QtObject)
      modifies this`attachedSlots
      ensures attachedSlots == WithoutReceiver(old(attachedSlots), receiver)
    {
      var kept: seq<AttachedSlot> := [];
      var i := 0;
      while i < |attachedSlots|
        invariant 0 <= i <= |attachedSlots|
        invariant kept == WithoutReceiver(attachedSlots[..i], receiver)
      {
        assert attachedSlots[..i + 1][..i] == attachedSlots[..i];
        if !Targets(attachedSlots[i], receiver) {
          kept := kept + [attachedSlots[i]];
        }
        i := i + 1;
      }
      assert attachedSlots[..i] == attachedSlots;
      attachedSlots := kept;
    }

    /** detachObject: the object's relayed signals and attached slots go. */
    method DetachObject(obj: QtObject)
      modifies this`attachedSlots, relay
      ensures attachedSlots == WithoutReceiver(old(attachedSlots), obj)
      ensures DroppedSender(old(relay.slots), relay.slots, obj)
    {
      relay.DetachSignal(obj, -1);
      DetachSlots(obj);
    }

    /** synchronize: register the object; a server marks it initialised, a
        client asks for its state unless it already has it. */
    method Synchronize(obj: QtObject)
      modifies this`syncSlave, this`notifications, obj`initialized, peers`outbox, this`removalQueue
      ensures syncSlave == old(syncSlave)[obj.className := ClassSlaves(old(syncSlave), obj.className)[obj.name := obj]]
      ensures mode == Server ==> obj.initialized && notifications == old(notifications) + [ObjectInitialized(obj)] && Quiet(old(peers))
      ensures mode == Client && old(obj.initialized) ==>
        obj.initialized && notifications == old(notifications) + [ObjectInitialized(obj)] && Quiet(old(peers))
      ensures mode == Client && !old(obj.initialized) ==>
        !obj.initialized && notifications == old(notifications)
        && Broadcast(old(peers), InitRequestMsg(InitRequest(obj.className, obj.name)))
    {
      var className := obj.className;
      syncSlave := syncSlave[className := ClassSlaves(syncSlave, className)[obj.name := obj]];
      if mode == Server {
        obj.initialized := true;
        notifications := notifications + [ObjectInitialized(obj)];
      } else {
        if obj.initialized {
          notifications := notifications + [ObjectInitialized(obj)];
        } else {
          RequestInit(obj);
        }
      }
    }

    /** stopSynchronize: the first class found that holds the object under
        its name drops that entry. */
    method StopSynchronize(obj: QtObject)
      modifies this`syncSlave
      ensures (forall c :: !Holds(old(syncSlave), c, obj)) ==> syncSlave == old(syncSlave)
      ensures (exists c :: Holds(old(syncSlave), c, obj)) ==>
        exists c :: Holds(old(syncSlave), c, obj) && syncSlave == old(syncSlave)[c := old(syncSlave)[c] - {obj.name}]
    {
      var classes := syncSlave.Keys;
      while classes != {}
        invariant syncSlave == old(syncSlave)
        invariant classes <= syncSlave.Keys
        invariant forall c :: c in syncSlave && c !in classes ==> !Holds(syncSlave, c, obj)
        decreases classes
      {
        var c :| c in classes;
        if obj.name in syncSlave[c] && syncSlave[c][obj.name] == obj {
          assert Holds(old(syncSlave), c, obj);
          syncSlave := syncSlave[c := syncSlave[c] - {obj.name}];
          return;
        }
        classes := classes - {c};
      }
    }

    /** invokeSlot */
    method InvokeSlot(receiver: QtObject, methodId: int, params: seq<Variant>, returnType: int) returns (ok: bool, returnValue: Variant)
      modifies receiver`invocations
      ensures ok == InvokeAccepted(sys, receiver.catalog, receiver.sameThread, methodId, params)
      ensures receiver.invocations == old(receiver.invocations) + (if ok then Invoked(sys, receiver.catalog, methodId, params) else [])
      ensures returnValue == ReturnValue(sys, receiver, methodId, params, returnType, ok)
    {
      var d := DescriptorOf(sys, receiver.catalog, methodId);
      var args := d.argTypes;
      var numArgs := if |params| < |args| then |params| else |args|;
      returnValue := if returnType == VoidType then Invalid else Value(returnType, "");
      if d.minArgCount > |params| {
        return false, returnValue;
      }
      ok := CheckArguments(args, params);
      if !ok {
        return;
      }
      if !receiver.sameThread {
        return false, returnValue;
      }
      // qt_metacall: QObject consumes a negative id; an id past the
      // class's methods is handled by no class
      if methodId < 0 {
        return true, returnValue;
      }
      if methodId >= |receiver.catalog.meta| {
        return false, returnValue;
      }
      receiver.invocations := receiver.invocations + [Invocation(methodId, params[..numArgs])];
      if returnValue != Invalid {
        returnValue := Value(returnType, receiver.answer(methodId, params[..numArgs]));
      }
      ok := true;
    }

    /** Whether a sync message reaches a slot: a registered object, a slot
        of that name, and a slot meant for this side. */
    predicate Routed(msg: SyncMessage)
      reads this
    {
      Registered(syncSlave, msg.className, msg.objectName)
      && var r := syncSlave[msg.className][msg.objectName];
      msg.slotName in r.catalog.methodIds
      && DescriptorOf(sys, r.catalog, r.catalog.methodIds[msg.slotName]).receiverMode == mode
    }

    /** handle(SyncMessage) */
    method HandleSync(peer: Peer, msg: SyncMessage)
      modifies peer`outbox, Receivers(msg.className, msg.objectName)`invocations
      ensures !Routed(msg) ==>
        peer.outbox == old(peer.outbox)
        && forall o :: o in Receivers(msg.className, msg.objectName) ==> o.invocations == old(o.invocations)
      ensures Routed(msg) ==>
        var r := syncSlave[msg.className][msg.objectName];
        r.invocations == old(r.invocations) + SyncInvocations(sys, r, msg)
        && peer.outbox == old(peer.outbox) + SyncReply(sys, r, msg)
    {
      if msg.className !in syncSlave || msg.objectName !in syncSlave[msg.className] {
        return;
      }
      var receiver := syncSlave[msg.className][msg.objectName];
      var eMeta := receiver.catalog;
      if msg.slotName !in eMeta.methodIds {
        return;
      }
      if mode != DescriptorOf(sys, eMeta, eMeta.methodIds[msg.slotName]).receiverMode {
        return;
      }
      SyncCall(peer, receiver, msg);
    }

    /** The routed part of handle(SyncMessage): the slot call, the reply to
        the sender, and updatedRemotely(). */
    method SyncCall(peer: Peer, receiver: QtObject, msg: SyncMessage)
      requires msg.slotName in receiver.catalog.methodIds
      modifies peer`outbox, receiver`invocations
      ensures receiver.invocations == old(receiver.invocations) + SyncInvocations(sys, receiver, msg)
      ensures peer.outbox == old(peer.outbox) + SyncReply(sys, receiver, msg)
    {
      var eMeta := receiver.catalog;
      var slotId := eMeta.methodIds[msg.slotName];
      var d := DescriptorOf(sys, eMeta, slotId);
      var ok, returnValue := InvokeSlot(receiver, slotId, msg.params, d.returnType);
      if !ok {
        assert receiver.invocations == old(receiver.invocations) + [];
        return;
      }
      ghost var called := Invoked(sys, eMeta, slotId, msg.params);
      assert receiver.invocations == old(receiver.invocations) + called;
      SendReply(peer, receiver, msg, returnValue);
      var updated, ignored := InvokeSlot(receiver, eMeta.updatedRemotelyId, [], VoidType);
      ghost var notified := if updated then Invoked(sys, eMeta, eMeta.updatedRemotelyId, []) else [];
      assert receiver.invocations == old(receiver.invocations) + (called + notified);
    }

    /** The answer to an accepted sync call, sent when the slot returned a
        value and has a receive slot. */
    method SendReply(peer: Peer, receiver: QtObject, msg: SyncMessage, returnValue: Variant)
      requires msg.slotName in receiver.catalog.methodIds
      requires var e := receiver.catalog;
        var slotId := e.methodIds[msg.slotName];
        InvokeAccepted(sys, e, receiver.sameThread, slotId, msg.params)
        && returnValue == ReturnValue(sys, receiver, slotId, msg.params, DescriptorOf(sys, e, slotId).returnType, true)
      modifies peer`outbox
      ensures peer.outbox == old(peer.outbox) + SyncReply(sys, receiver, msg)
    {
      var eMeta := receiver.catalog;
      var slotId := eMeta.methodIds[msg.slotName];
      var receiveMap := ComputeReceiveMap(sys, eMeta.meta);
      if returnValue != Invalid && slotId in receiveMap {
        var receiverId := receiveMap[slotId];
        var returnParams: seq<Variant> := [];
        if |DescriptorOf(sys, eMeta, receiverId).argTypes| > 1 {
          returnParams := msg.params;
        }
        returnParams := returnParams + [returnValue];
        peer.Dispatch(SyncMsg(SyncMessage(msg.className, msg.objectName, DescriptorOf(sys, eMeta, receiverId).methodName, returnParams)));
      }
    }

    /** handle(InitRequest): the object's properties go back to the asking
        peer. */
    method HandleInitRequest(peer: Peer, request: InitRequest)
      modifies peer`outbox
      ensures !Registered(syncSlave, request.className, request.objectName) ==> peer.outbox == old(peer.outbox)
      ensures Registered(syncSlave, request.className, request.objectName) ==>
        peer.outbox == old(peer.outbox) + [InitDataMsg(InitData(request.className, request.objectName,
          syncSlave[request.className][request.objectName].properties))]
    {
      if request.className !in syncSlave {
        return;
      }
      if request.objectName !in syncSlave[request.className] {
        return;
      }
      var obj := syncSlave[request.className][request.objectName];
      peer.Dispatch(InitDataMsg(InitData(request.className, request.objectName, obj.properties)));
    }

    /** setInitData: an uninitialised object takes the properties, becomes
        initialised, is announced and told it was updated; an initialised
        one is left alone. */
    method SetInitData(obj: QtObject, properties: map<string, Variant>)
      modifies obj`initialized, obj`properties, obj`invocations, this`notifications
      ensures old(obj.initialized) ==> unchanged(obj) && notifications == old(notifications)
      ensures !old(obj.initialized) ==>
        obj.initialized && obj.properties == old(obj.properties) + properties
        && notifications == old(notifications) + [ObjectInitialized(obj)]
        && obj.invocations == old(obj.invocations)
             + (if InvokeAccepted(sys, obj.catalog, obj.sameThread, obj.catalog.updatedRemotelyId, [])
                then Invoked(sys, obj.catalog, obj.catalog.updatedRemotelyId, []) else [])
    {
      if obj.initialized {
        return;
      }
      obj.properties := obj.properties + properties;
      obj.initialized := true;
      notifications := notifications + [ObjectInitialized(obj)];
      var updated, ignored := InvokeSlot(obj, obj.catalog.updatedRemotelyId, [], VoidType);
    }

    /** handle(InitData) */
    method HandleInitData(peer: Peer, data: InitData)
      modifies Receivers(data.className, data.objectName)`initialized, Receivers(data.className, data.objectName)`properties
      modifies Receivers(data.className, data.objectName)`invocations, this`notifications
      ensures !Registered(syncSlave, data.className, data.objectName) ==> notifications == old(notifications)
      ensures Registered(syncSlave, data.className, data.objectName) ==>
        var obj := syncSlave[data.className][data.objectName];
        (old(obj.initialized) ==> unchanged(obj) && notifications == old(notifications))
        && (!old(obj.initialized) ==>
              obj.initialized && obj.properties == old(obj.properties) + data.initData
              && notifications == old(notifications) + [ObjectInitialized(obj)]
              && obj.invocations == old(obj.invocations)
                   + (if InvokeAccepted(sys, obj.catalog, obj.sameThread, obj.catalog.updatedRemotelyId, [])
                      then Invoked(sys, obj.catalog, obj.catalog.updatedRemotelyId, []) else []))
    {
      if data.className !in syncSlave {
        return;
      }
      if data.objectName !in syncSlave[data.className] {
        return;
      }
      var obj := syncSlave[data.className][data.objectName];
      SetInitData(obj, data.initData);
    }

    /** One delivery of an rpc call to an attached slot. */
    method Deliver(entry: AttachedSlot, params: seq<Variant>) returns (ok: bool)
      modifies if entry.target.ObjectSlot? then {entry.target.receiver} else {}`invocations
      modifies this`syncSlave, peers`outbox, this`removalQueue
      ensures ok == TargetAccepts(sys, entry.target, params)
      ensures entry.target.ObjectSlot? ==>
        var r := entry.target.receiver;
        r.invocations == old(r.invocations) + (if ok then Invoked(sys, r.catalog, entry.target.methodId, params) else [])
        && syncSlave == old(syncSlave) && Quiet(old(peers))
      ensures entry.target.RenameSlot? && !ok ==> syncSlave == old(syncSlave) && Quiet(old(peers))
      ensures entry.target.RenameSlot? && ok && !RenameApplies(old(syncSlave), params[0].text, params[1].text, params[2].text) ==>
        syncSlave == old(syncSlave) && Quiet(old(peers))
      ensures entry.target.RenameSlot? && ok && RenameApplies(old(syncSlave), params[0].text, params[1].text, params[2].text) ==>
        var obj := old(syncSlave)[params[0].text][params[2].text];
        syncSlave == Renamed(old(syncSlave), params[0].text, params[1].text, params[2].text)
        && (mode == Server || obj.initialized ==> Quiet(old(peers)))
        && (mode == Client && !obj.initialized ==> Broadcast(old(peers), InitRequestMsg(InitRequest(obj.className, obj.name))))
    {
      match entry.target
      case ObjectSlot(receiver, methodId) =>
        var returnValue;
        ok, returnValue := InvokeSlot(receiver, methodId, params, VoidType);
      case RenameSlot =>
        if |params| < |RenameArgTypes| {
          return false;
        }
        ok := CheckArguments(RenameArgTypes, params);
        if ok {
          ObjectRenamed(params[0].text, params[1].text, params[2].text);
        }
    }

    /** The delivery to the i-th entry of `targets`, seen from all of
        their receivers, whose calls before the loop are `start`. */
    method DeliverNext(targets: seq<AttachedSlot>, i: int, params: seq<Variant>, ghost start: map<QtObject, seq<Invocation>>)
      requires 0 <= i < |targets|
      requires forall o :: o in ObjectTargets(targets) ==>
        o in start && o.invocations == start[o] + RpcInvocations(sys, targets[..i], o, params)
      modifies ObjectTargets(targets)`invocations, this`syncSlave, peers`outbox, this`removalQueue
      ensures forall o :: o in ObjectTargets(targets) ==>
        o.invocations == start[o] + RpcInvocations(sys, targets[..i + 1], o, params)
      ensures targets[i].target.ObjectSlot? ==> syncSlave == old(syncSlave) && Quiet(old(peers))
    {
      var entry := targets[i];
      assert entry in targets;
      var ok := Deliver(entry, params);
      RpcInvocationsNext(sys, targets, i, params);
      forall o | o in ObjectTargets(targets)
        ensures o.invocations == start[o] + RpcInvocations(sys, targets[..i + 1], o, params)
      {
        assert o.invocations == old(o.invocations) + RpcStep(sys, entry, o, params);
        ByteArrays.AppendAssoc(start[o], RpcInvocations(sys, targets[..i], o, params), RpcStep(sys, entry, o, params));
      }
    }

    /** handle(RpcCall): every slot attached to the name is called, newest
        attachment first; each call goes through or not on its own. */
    method HandleRpcCall(peer: Peer, call: RpcCall)
      modifies ObjectTargets(Matching(attachedSlots, call.slotName))`invocations
      modifies this`syncSlave, peers`outbox, this`removalQueue
      ensures var targets := Matching(old(attachedSlots), call.slotName);
        (forall o :: o in ObjectTargets(targets) ==>
              o.invocations == old(o.invocations) + RpcInvocations(sys, targets, o, call.params))
        && (NoRename(targets) ==> syncSlave == old(syncSlave) && Quiet(old(peers)))
    {
      var targets := Matching(attachedSlots, call.slotName);
      ghost var start := map o | o in ObjectTargets(targets) :: o.invocations;
      var i := 0;
      while i < |targets|
        invariant 0 <= i <= |targets|
        invariant forall o :: o in ObjectTargets(targets) ==>
          o.invocations == start[o] + RpcInvocations(sys, targets[..i], o, call.params)
        invariant NoRename(targets[..i]) ==> syncSlave == old(syncSlave) && Quiet(old(peers))
      {
        DeliverNext(targets, i, call.params, start);
        assert targets[..i + 1] == targets[..i] + [targets[i]];
        i := i + 1;
      }
      assert targets[..i] == targets;
    }
  }
}
