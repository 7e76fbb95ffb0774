/** The method catalog of the sync layer (SignalProxy::ExtendedMetaObject):
    what the proxy knows about the methods of one class, worked out from
    the class's meta-object. A meta-object is the list of its methods,
    indexed by method id; the meta-type registry and signature
    normalisation of the object system are parameters (`MetaSystem`). */
module Catalog {

  datatype ProxyMode = Client | Server

  /** QMetaMethod::MethodType */
  datatype MethodType = Method | Signal | Slot | Constructor

  /** One method of a meta-object: its signature ("name(type,type)"), kind,
      return type name ("" for void) and parameter type names. */
  datatype MetaMethod = MetaMethod(signature: string, methodType: MethodType, typeName: string, parameterTypes: seq<string>)

  /** What QMetaObject::method returns for an id out of range. */
  const InvalidMethod := MetaMethod("", Method, "", [])

  /** The meta-type registry (QMetaType::type, 0 for void or an unknown
      name) and QMetaObject::normalizedSignature. */
  datatype MetaSystem = MetaSystem(typeOf: string -> int, normalize: string -> string)

  /** QMetaType::Void, also the answer for an unregistered type name. */
  const VoidType := 0

  function MethodAt(meta: seq<MetaMethod>, id: int): MetaMethod {
    if 0 <= id < |meta| then meta[id] else InvalidMethod
  }

  // ---------------------------------------------------------------------
  // Byte-array helpers with Qt's edge cases

  predicate StartsWith(s: string, prefix: string) {
    |prefix| <= |s| && s[..|prefix|] == prefix
  }

  /** QByteArray::indexOf(char): the first position of `c`, -1 if none. */
  function IndexOf(s: string, c: char): (r: int)
    ensures r == -1 <==> c !in s
    ensures r != -1 ==> 0 <= r < |s| && s[r] == c && c !in s[..r]
  {
    if |s| == 0 then -1
    else if s[0] == c then 0
    else
      var k := IndexOf(s[1..], c);
      assert s[1..][..k + 1] == s[1..k + 2] by {
        if k != -1 {
          assert s[..k + 2] == [s[0]] + s[1..][..k + 1];
        }
      }
      if k == -1 then -1 else
        assert s[..k + 1] == [s[0]] + s[1..][..k];
        k + 1
  }

  /** QByteArray::left(len): everything when len reaches the size, nothing
      for a negative len. */
  function Left(s: string, len: int): (r: string)
    ensures 0 <= len <= |s| ==> r == s[..len]
    ensures len < 0 ==> r == []
    ensures len >= |s| ==> r == s
  {
    if len >= |s| then s else if len < 0 then [] else s[..len]
  }

  /** QByteArray::mid(pos): the text from `pos` on, nothing past the end. */
  function Mid(s: string, pos: nat): (r: string)
    ensures pos <= |s| ==> r == s[pos..]
    ensures pos > |s| ==> r == []
  {
    if pos <= |s| then s[pos..] else []
  }

  /** The number of occurrences of `c` (QString::count). */
  function Count(s: string, c: char): (r: nat)
    ensures r <= |s|
    ensures r == 0 <==> c !in s
  {
    if |s| == 0 then 0 else (if s[0] == c then 1 else 0) + Count(s[1..], c)
  }

  /** QByteArray::replace(before, after): every occurrence, left to right,
      without overlap. */
  function ReplaceAll(s: string, before: string, after: string): string
    requires |before| > 0
    decreases |s|
  {
    if |s| < |before| then s
    else if s[..|before|] == before then after + ReplaceAll(s[|before|..], before, after)
    else [s[0]] + ReplaceAll(s[1..], before, after)
  }

  /** Replacing a prefix puts the replacement first. */
  lemma ReplaceAllPrefix(s: string, before: string, after: string)
    requires |before| > 0 && StartsWith(s, before)
    ensures StartsWith(ReplaceAll(s, before, after), after)
  {
    var r := ReplaceAll(s, before, after);
    assert r == after + ReplaceAll(s[|before|..], before, after);
    assert r[..|after|] == after;
  }

  function IsUpper(c: char): bool { 'A' <= c <= 'Z' }

  /** QChar::toUpper on ASCII letters; other characters unchanged. */
  function ToUpper(c: char): (r: char)
    ensures 'a' <= c <= 'z' ==> IsUpper(r)
    ensures !('a' <= c <= 'z') ==> r == c
  {
    if 'a' <= c <= 'z' then (c as int - 32) as char else c
  }

  // ---------------------------------------------------------------------
  // Method names (methodName, methodBaseName)

  /** methodName: the signature up to its '(' (nothing when there is none). */
  function MethodName(signature: string): (r: string)
  {
    Left(signature, IndexOf(signature, '('))
  }

  /** The name of a method is the text before the first '(' of its
      signature, and has no '(' of its own. */
  lemma MethodNameBeforeParen(signature: string)
    ensures '(' !in MethodName(signature)
    ensures '(' in signature ==> var n := MethodName(signature);
      |n| < |signature| && signature[..|n|] == n && signature[|n|] == '('
    ensures '(' !in signature ==> MethodName(signature) == ""
  {}

  /** QString::section("(", 0, 0): the text before the first '(', or all
      of it when there is none. */
  function SectionBeforeParen(s: string): (r: string)
    ensures StartsWith(s, r) && '(' !in r
  {
    var p := IndexOf(s, '(');
    if p == -1 then s else s[..p]
  }

  function FirstUpper(s: string): (r: int)
    ensures r == -1 <==> forall i :: 0 <= i < |s| ==> !IsUpper(s[i])
    ensures r != -1 ==> 0 <= r < |s| && IsUpper(s[r]) && forall i :: 0 <= i < r ==> !IsUpper(s[i])
  {
    if |s| == 0 then -1
    else if IsUpper(s[0]) then 0
    else
      var k := FirstUpper(s[1..]);
      assert forall i :: 1 <= i < |s| ==> s[i] == s[1..][i - 1];
      if k == -1 then -1 else k + 1
  }

  function LastUpper(s: string): (r: int)
    ensures r == -1 <==> forall i :: 0 <= i < |s| ==> !IsUpper(s[i])
    ensures r != -1 ==> 0 <= r < |s| && IsUpper(s[r]) && forall i :: r < i < |s| ==> !IsUpper(s[i])
  {
    if |s| == 0 then -1
    else if IsUpper(s[|s| - 1]) then |s| - 1
    else
      var k := LastUpper(s[..|s| - 1]);
      assert forall i :: 0 <= i < |s| - 1 ==> s[i] == s[..|s| - 1][i];
      k
  }

  /** `methodname[0] = methodname[0].toUpper()` on a QString: writing past
      the end of an empty string grows it, so an empty name becomes the one
      character NUL. */
  function CapitalizeFirst(s: string): (r: string)
    ensures |r| == if |s| == 0 then 1 else |s|
    ensures |s| > 0 ==> r[0] == ToUpper(s[0]) && r[1..] == s[1..]
    ensures |s| == 0 ==> r == ['\0']
  {
    if |s| == 0 then [ToUpper('\0')] else [ToUpper(s[0])] + s[1..]
  }

  /** methodBaseName: a slot keeps its name from the first capital on
      ("setTopic" gives "Topic"); a signal keeps it up to its last capital,
      capitalised ("topicSet" gives "Topic"); no capital gives "". */
  function MethodBaseName(m: MetaMethod): string
  {
    var methodname := SectionBeforeParen(m.signature);
    if m.methodType == Slot then
      var upperCharPos := FirstUpper(methodname);
      if upperCharPos == -1 then "" else CapitalizeFirst(methodname[upperCharPos..])
    else
      var upperCharPos := LastUpper(methodname);
      if upperCharPos == -1 then "" else CapitalizeFirst(methodname[..upperCharPos])
  }

  /** A slot's base name is the tail of its name from the first capital,
      and empty when the name has no capital. */
  lemma SlotBaseName(m: MetaMethod)
    requires m.methodType == Slot
    ensures var name := SectionBeforeParen(m.signature);
      var b := MethodBaseName(m);
      (b == "" <==> forall i :: 0 <= i < |name| ==> !IsUpper(name[i]))
      && (b != "" ==> IsUpper(b[0]) && exists k :: 0 <= k < |name| && name[k..] == b)
    ensures var name := SectionBeforeParen(m.signature);
      forall k :: 0 <= k < |name| && IsUpper(name[k]) && (forall i :: 0 <= i < k ==> !IsUpper(name[i])) ==>
        MethodBaseName(m) == name[k..]
  {
    var name := SectionBeforeParen(m.signature);
    var p := FirstUpper(name);
    if p != -1 {
      assert name[p..] == MethodBaseName(m);
    }
  }

  /** A signal's base name is its name up to the last capital, with the
      first letter made upper case; a signal named from its only capital
      on ("Changed()") gets the one-character name NUL. */
  lemma SignalBaseName(m: MetaMethod)
    requires m.methodType != Slot
    ensures var name := SectionBeforeParen(m.signature);
      var b := MethodBaseName(m);
      var p := LastUpper(name);
      (p == -1 ==> b == "")
      && (p > 0 ==> |b| == p && b[0] == ToUpper(name[0]) && b[1..] == name[1..p])
      && (p == 0 ==> b == ['\0'])
  {}

  // ---------------------------------------------------------------------
  // Method descriptors

  /** ExtendedMetaObject::MethodDescriptor */
  datatype MethodDescriptor = MethodDescriptor(
    methodName: string, returnType: int, argTypes: seq<int>, minArgCount: int, receiverMode: ProxyMode)

  /** The descriptor of a method: its name, type ids, the number of
      parameters without a default value, and which side may receive it. */
  function Descriptor(sys: MetaSystem, m: MetaMethod): (d: MethodDescriptor)
    ensures |d.argTypes| == |m.parameterTypes|
    ensures forall i :: 0 <= i < |d.argTypes| ==> d.argTypes[i] == sys.typeOf(m.parameterTypes[i])
  {
    var name := MethodName(m.signature);
    MethodDescriptor(
      name,
      sys.typeOf(m.typeName),
      seq(|m.parameterTypes|, i requires 0 <= i < |m.parameterTypes| => sys.typeOf(m.parameterTypes[i])),
      |m.parameterTypes| - Count(m.signature, '='),
      if StartsWith(name, "request") then Server else Client)
  }

  /** A method is server-bound exactly when its signature starts with
      "request"; its minimum argument count is its parameter count less one
      per default value, and is the full count when it has none. */
  lemma DescriptorMeaning(sys: MetaSystem, m: MetaMethod)
    requires '(' in m.signature
    ensures var d := Descriptor(sys, m);
      (d.receiverMode == Server <==> StartsWith(m.signature, "request"))
      && d.minArgCount <= |d.argTypes|
      && (d.minArgCount == |d.argTypes| <==> '=' !in m.signature)
  {
    var sig := m.signature;
    var name := MethodName(sig);
    MethodNameBeforeParen(sig);
    if StartsWith(sig, "request") {
      assert '(' !in sig[..7] by {
        assert sig[..7] == "request";
      }
      assert |name| >= 7;
      assert name[..7] == sig[..7];
    }
    if StartsWith(name, "request") {
      assert sig[..7] == name[..7];
    }
  }

  // ---------------------------------------------------------------------
  // Method lookup (QMetaObject::indexOfMethod / indexOfSlot / indexOfSignal)

  /** The method id of the last method with this signature among the given
      kinds, -1 if none: Qt searches from the most derived class and from
      the end of each class's method list. */
  function IndexOfMethod(meta: seq<MetaMethod>, signature: string, kinds: set<MethodType>): (r: int)
    ensures -1 <= r < |meta|
    ensures r >= 0 ==> meta[r].signature == signature && meta[r].methodType in kinds
  {
    if |meta| == 0 then -1
    else if meta[|meta| - 1].signature == signature && meta[|meta| - 1].methodType in kinds then |meta| - 1
    else IndexOfMethod(meta[..|meta| - 1], signature, kinds)
  }

  /** The id found is the last match, and -1 means there is no match. */
  lemma {:induction false} IndexOfMethodIsLast(meta: seq<MetaMethod>, signature: string, kinds: set<MethodType>)
    ensures var r := IndexOfMethod(meta, signature, kinds);
      (r >= 0 ==> forall j :: r < j < |meta| ==> !(meta[j].signature == signature && meta[j].methodType in kinds))
      && (r == -1 ==> forall j :: 0 <= j < |meta| ==> !(meta[j].signature == signature && meta[j].methodType in kinds))
  {
    if |meta| > 0 && !(meta[|meta| - 1].signature == signature && meta[|meta| - 1].methodType in kinds) {
      IndexOfMethodIsLast(meta[..|meta| - 1], signature, kinds);
    }
  }

  const AnyKind: set<MethodType> := {Method, Signal, Slot, Constructor}

  // ---------------------------------------------------------------------
  // The catalog of one class (ExtendedMetaObject)

  /** ExtendedMetaObject: the meta-object, the map from method name to the
      method id that receives calls under that name (slotMap), and the id
      of the updatedRemotely() signal. Method descriptors and the receive
      map are functions of `meta`; the source computes them lazily and
      caches them. */
  datatype ExtendedMetaObject = ExtendedMetaObject(meta: seq<MetaMethod>, methodIds: map<string, int>, updatedRemotelyId: int)

  /** A method that can receive sync calls: a slot without pointer
      parameters whose name does not start with "init". */
  predicate Receivable(m: MetaMethod) {
    m.methodType == Slot && '*' !in m.signature && !StartsWith(MethodName(m.signature), "init")
  }

  predicate IdsWithin(ids: map<string, int>, n: nat) {
    forall k :: k in ids ==> 0 <= ids[k] < n
  }

  /** One step of the constructor's loop: method `i` takes over its name
      when the name is new, or when it extends the parameter list of the
      method holding the name; a shorter variant or a conflicting overload
      leaves the first one seen. */
  function Collapse(meta: seq<MetaMethod>, ids: map<string, int>, i: nat): (r: map<string, int>)
    requires i < |meta| && IdsWithin(ids, i)
    ensures IdsWithin(r, i + 1)
  {
    var m := meta[i];
    if !Receivable(m) then ids
    else
      var name := MethodName(m.signature);
      if name !in ids then ids[name := i]
      else
        var current := meta[ids[name]].parameterTypes;
        var candidate := m.parameterTypes;
        if |current| > |candidate| then ids
        else if candidate[..|current|] == current then ids[name := i]
        else ids
  }

  /** The name map after the constructor has looked at the first `n`
      methods. */
  function MethodIds(meta: seq<MetaMethod>, n: nat): (r: map<string, int>)
    requires n <= |meta|
    ensures IdsWithin(r, n)
  {
    if n == 0 then map[] else Collapse(meta, MethodIds(meta, n - 1), n - 1)
  }

  /** Every receivable method's name is in the map, every name in the map
      is held by a receivable method of that name. */
  lemma {:induction false} MethodIdsNames(meta: seq<MetaMethod>, n: nat)
    requires n <= |meta|
    ensures forall k :: k in MethodIds(meta, n) ==>
      Receivable(meta[MethodIds(meta, n)[k]]) && MethodName(meta[MethodIds(meta, n)[k]].signature) == k
    ensures forall i :: 0 <= i < n && Receivable(meta[i]) ==> MethodName(meta[i].signature) in MethodIds(meta, n)
  {
    if n > 0 {
      MethodIdsNames(meta, n - 1);
    }
  }

  /** Parameter list `a` is the start of `b`. */
  predicate Extends(b: seq<string>, a: seq<string>) {
    |a| <= |b| && b[..|a|] == a
  }

  lemma ExtendsTransitive(c: seq<string>, b: seq<string>, a: seq<string>)
    requires Extends(c, b) && Extends(b, a)
    ensures Extends(c, a)
  {
    assert c[..|a|] == c[..|b|][..|a|];
  }

  /** Method `i` is a receivable method called `name`. */
  predicate NamedReceivable(meta: seq<MetaMethod>, i: nat, name: string)
    requires i < |meta|
  {
    Receivable(meta[i]) && MethodName(meta[i].signature) == name
  }

  /** The receivable methods called `name` among the first `n` are
      overloads that extend one another pairwise. */
  predicate VariantsNested(meta: seq<MetaMethod>, n: nat, name: string)
    requires n <= |meta|
  {
    forall i, j :: 0 <= i < n && 0 <= j < n && NamedReceivable(meta, i, name) && NamedReceivable(meta, j, name) ==>
      Extends(meta[i].parameterTypes, meta[j].parameterTypes) || Extends(meta[j].parameterTypes, meta[i].parameterTypes)
  }

  /** Method `c`'s parameter list starts with that of every receivable
      method called `name` among the first `n`. */
  predicate ExtendsAllVariants(meta: seq<MetaMethod>, n: nat, name: string, c: nat)
    requires n <= |meta| && c < |meta|
  {
    forall i :: 0 <= i < n && NamedReceivable(meta, i, name) ==> Extends(meta[c].parameterTypes, meta[i].parameterTypes)
  }

  /** What one step of the loop does to one name. */
  lemma CollapseCases(meta: seq<MetaMethod>, ids: map<string, int>, i: nat, name: string)
    requires i < |meta| && IdsWithin(ids, i)
    ensures var r := Collapse(meta, ids, i);
      (name in r <==> name in ids || NamedReceivable(meta, i, name))
      && (name in r && name in ids && r[name] == ids[name] && NamedReceivable(meta, i, name) ==>
            !Extends(meta[i].parameterTypes, meta[ids[name]].parameterTypes))
      && (name in r && !(name in ids && r[name] == ids[name]) ==>
            r[name] == i && NamedReceivable(meta, i, name)
            && (name in ids ==> Extends(meta[i].parameterTypes, meta[ids[name]].parameterTypes)))
  {}

  /** The holder of a name is an earlier receivable method of that name;
      a name not held belongs to no earlier receivable method. */
  lemma MethodIdsHolder(meta: seq<MetaMethod>, n: nat, name: string)
    requires n <= |meta|
    ensures name in MethodIds(meta, n) ==> NamedReceivable(meta, MethodIds(meta, n)[name], name)
    ensures name !in MethodIds(meta, n) ==> forall i :: 0 <= i < n ==> !NamedReceivable(meta, i, name)
  {
    MethodIdsNames(meta, n);
  }

  /** Overloads whose parameter lists extend one another are one method
      with default parameters: when every pair of receivable methods named
      `name` is so related, the catalog keeps the one with the longest
      list, whose list every other variant's list starts. */
  lemma {:induction false} MethodIdsKeepFullVariant(meta: seq<MetaMethod>, n: nat, name: string)
    requires n <= |meta| && VariantsNested(meta, n, name)
    ensures name in MethodIds(meta, n) ==> ExtendsAllVariants(meta, n, name, MethodIds(meta, n)[name])
  {
    if n > 0 {
      var ids := MethodIds(meta, n - 1);
      var r := MethodIds(meta, n);
      assert VariantsNested(meta, n - 1, name);
      MethodIdsKeepFullVariant(meta, n - 1, name);
      MethodIdsHolder(meta, n - 1, name);
      CollapseCases(meta, ids, n - 1, name);
      if name in r {
        if name in ids && r[name] == ids[name] {
          var c := ids[name];
          if NamedReceivable(meta, n - 1, name) {
            assert Extends(meta[c].parameterTypes, meta[n - 1].parameterTypes);
          }
        } else if name in ids {
          var c := ids[name];
          forall i | 0 <= i < n && NamedReceivable(meta, i, name)
            ensures Extends(meta[n - 1].parameterTypes, meta[i].parameterTypes)
          {
            if i < n - 1 {
              ExtendsTransitive(meta[n - 1].parameterTypes, meta[c].parameterTypes, meta[i].parameterTypes);
            }
          }
        }
      }
    }
  }

  /** The ExtendedMetaObject constructor. */
  method NewExtendedMetaObject(meta: seq<MetaMethod>) returns (e: ExtendedMetaObject)
    ensures e.meta == meta && e.methodIds == MethodIds(meta, |meta|)
    ensures e.updatedRemotelyId == IndexOfMethod(meta, "updatedRemotely()", {Signal})
  {
    var methodIds: map<string, int> := map[];
    var i := 0;
    while i < |meta|
      invariant 0 <= i <= |meta|
      invariant methodIds == MethodIds(meta, i)
    {
      var m := meta[i];
      if m.methodType != Slot || '*' in m.signature {
        i := i + 1;
        continue;
      }
      var name := MethodName(m.signature);
      if StartsWith(name, "init") {
        i := i + 1;
        continue;
      }
      if name in methodIds {
        var current := meta[methodIds[name]].parameterTypes;
        var candidate := m.parameterTypes;
        if |current| > |candidate| {
          // a shorter variant, or a conflict: the method seen first stays
        } else {
          var minCount := |current|;
          if candidate[..minCount] == current {
            methodIds := methodIds[name := i];
          }
        }
        i := i + 1;
        continue;
      }
      methodIds := methodIds[name := i];
      i := i + 1;
    }
    e := ExtendedMetaObject(meta, methodIds, IndexOfMethod(meta, "updatedRemotely()", {Signal}));
  }

  /** methodDescriptor(methodId) */
  function DescriptorOf(sys: MetaSystem, e: ExtendedMetaObject, methodId: int): MethodDescriptor {
    Descriptor(sys, MethodAt(e.meta, methodId))
  }

  // ---------------------------------------------------------------------
  // Pairing requests with receivers (receiveMap)

  /** A request slot: a slot with a return value whose signature starts
      with "request" and has a parameter list. */
  predicate IsRequest(sys: MetaSystem, m: MetaMethod) {
    m.methodType == Slot && sys.typeOf(m.typeName) != VoidType
    && StartsWith(m.signature, "request") && '(' in m.signature
  }

  /** The name of a request's receiver: its method name with "request"
      replaced by "receive". */
  function ReceiveName(signature: string): (r: string)
    requires '(' in signature
    ensures StartsWith(signature, "request") ==> StartsWith(r, "receive")
  {
    var paramsPos := IndexOf(signature, '(');
    var name := signature[..paramsPos];
    if StartsWith(signature, "request") then
      assert |name| >= 7 && name[..7] == signature[..7];
      ReplaceAllPrefix(name, "request", "receive");
      ReplaceAll(name, "request", "receive")
    else
      ReplaceAll(name, "request", "receive")
  }

  /** "receiveX(T1,T2, R)" for "requestX(T1,T2)" returning R, normalised. */
  function FullReceiverSignature(sys: MetaSystem, request: MetaMethod): string
    requires '(' in request.signature
  {
    var params := request.signature[IndexOf(request.signature, '(')..];
    sys.normalize(ReceiveName(request.signature) + Left(params, |params| - 1) + ", " + request.typeName + ")")
  }

  /** "receiveX(R)" for "requestX(...)" returning R, normalised. */
  function ShortReceiverSignature(sys: MetaSystem, request: MetaMethod): string
    requires '(' in request.signature
  {
    sys.normalize(ReceiveName(request.signature) + "(" + request.typeName + ")")
  }

  predicate HasSlot(meta: seq<MetaMethod>, signature: string) {
    exists k :: 0 <= k < |meta| && meta[k].signature == signature && meta[k].methodType == Slot
  }

  /** The receiver of method `i`, -1 for none (see ReceiverOfMeaning). */
  function ReceiverOf(sys: MetaSystem, meta: seq<MetaMethod>, i: nat): (r: int)
    requires i < |meta|
    ensures -1 <= r < |meta|
  {
    var request := meta[i];
    if !IsRequest(sys, request) then -1
    else
      var full := IndexOfMethod(meta, FullReceiverSignature(sys, request), {Slot});
      if full != -1 then full
      else IndexOfMethod(meta, ShortReceiverSignature(sys, request), {Slot})
  }

  /** Only a request slot has a receiver, and it is a slot: the last one
      with the full receiver signature, or, only when there is no such
      slot, the last one with the short signature. */
  lemma ReceiverOfMeaning(sys: MetaSystem, meta: seq<MetaMethod>, i: nat)
    requires i < |meta|
    ensures var r := ReceiverOf(sys, meta, i);
      (!IsRequest(sys, meta[i]) ==> r == -1)
      && (r != -1 ==> meta[r].methodType == Slot)
      && (IsRequest(sys, meta[i]) && HasSlot(meta, FullReceiverSignature(sys, meta[i])) ==>
            r != -1 && meta[r].signature == FullReceiverSignature(sys, meta[i])
            && forall k :: r < k < |meta| && meta[k].methodType == Slot ==> meta[k].signature != meta[r].signature)
      && (IsRequest(sys, meta[i]) && !HasSlot(meta, FullReceiverSignature(sys, meta[i])) ==>
            (r != -1 <==> HasSlot(meta, ShortReceiverSignature(sys, meta[i])))
            && (r != -1 ==> meta[r].signature == ShortReceiverSignature(sys, meta[i])))
  {
    if IsRequest(sys, meta[i]) {
      var full := FullReceiverSignature(sys, meta[i]);
      var short := ShortReceiverSignature(sys, meta[i]);
      var f := IndexOfMethod(meta, full, {Slot});
      IndexOfMethodIsLast(meta, full, {Slot});
      IndexOfMethodIsLast(meta, short, {Slot});
      if HasSlot(meta, full) {
        var k :| 0 <= k < |meta| && meta[k].signature == full && meta[k].methodType == Slot;
        assert f != -1;
      } else if HasSlot(meta, short) {
        var k :| 0 <= k < |meta| && meta[k].signature == short && meta[k].methodType == Slot;
        assert IndexOfMethod(meta, short, {Slot}) != -1;
      }
    }
  }

  /** The receiver of every method id, -1 where there is none. */
  function ReceiverIds(sys: MetaSystem, meta: seq<MetaMethod>): seq<int> {
    seq(|meta|, i requires 0 <= i < |meta| => ReceiverOf(sys, meta, i))
  }

  /** The map from the ids below `n` to their receivers, leaving out the
      ids without one. */
  function FoundMap(found: seq<int>, n: nat): map<int, int>
    requires n <= |found|
  {
    if n == 0 then map[]
    else
      var r := FoundMap(found, n - 1);
      if found[n - 1] != -1 then r[n - 1 := found[n - 1]] else r
  }

  /** receiveMap: request slot id to receiver slot id. */
  function ReceiveMap(sys: MetaSystem, meta: seq<MetaMethod>): map<int, int> {
    FoundMap(ReceiverIds(sys, meta), |meta|)
  }

  /** The map holds exactly the ids below `n` that have a receiver, each
      mapped to it. */
  lemma {:induction false} FoundMapEntries(found: seq<int>, n: nat, i: int)
    requires n <= |found|
    ensures i in FoundMap(found, n) <==> 0 <= i < n && found[i] != -1
    ensures i in FoundMap(found, n) ==> FoundMap(found, n)[i] == found[i]
  {
    if n > 0 {
      FoundMapEntries(found, n - 1, i);
    }
  }

  /** Every pair in the receive map joins a request slot to a slot whose
      name starts with "receive" in place of "request". */
  lemma ReceiveMapPairs(sys: MetaSystem, meta: seq<MetaMethod>, i: int)
    requires i in ReceiveMap(sys, meta)
    ensures 0 <= i < |meta| && IsRequest(sys, meta[i])
    ensures var j := ReceiveMap(sys, meta)[i];
      0 <= j < |meta| && meta[j].methodType == Slot
      && (meta[j].signature == FullReceiverSignature(sys, meta[i])
          || meta[j].signature == ShortReceiverSignature(sys, meta[i]))
  {
    FoundMapEntries(ReceiverIds(sys, meta), |meta|, i);
    ReceiverOfMeaning(sys, meta, i);
  }

  /** The body of receiveMap()'s loop for one method. */
  method FindReceiver(sys: MetaSystem, meta: seq<MetaMethod>, i: nat) returns (receiverId: int)
    requires i < |meta|
    ensures receiverId == ReceiverOf(sys, meta, i)
  {
    var requestSlot := meta[i];
    var signature := requestSlot.signature;
    if requestSlot.methodType != Slot || sys.typeOf(requestSlot.typeName) == VoidType
       || !StartsWith(signature, "request") {
      return -1;
    }
    var paramsPos := IndexOf(signature, '(');
    if paramsPos == -1 {
      return -1;
    }
    var methodName := ReplaceAll(Left(signature, paramsPos), "request", "receive");
    var params := signature[paramsPos..];
    params := Left(params, |params| - 1) + ", " + requestSlot.typeName + ")";
    assert methodName + params == ReceiveName(meta[i].signature) + Left(meta[i].signature[paramsPos..], |meta[i].signature[paramsPos..]| - 1) + ", " + requestSlot.typeName + ")";
    signature := sys.normalize(methodName + params);
    receiverId := IndexOfMethod(meta, signature, {Slot});
    if receiverId == -1 {
      signature := sys.normalize(methodName + "(" + requestSlot.typeName + ")");
      receiverId := IndexOfMethod(meta, signature, {Slot});
    }
  }

  /** receiveMap(): one pass over the methods. */
  method ComputeReceiveMap(sys: MetaSystem, meta: seq<MetaMethod>) returns (receiveMap: map<int, int>)
    ensures receiveMap == ReceiveMap(sys, meta)
  {
    receiveMap := map[];
    ghost var ids := ReceiverIds(sys, meta);
    var i := 0;
    while i < |meta|
      invariant 0 <= i <= |meta|
      invariant receiveMap == FoundMap(ids, i)
    {
      var receiverId := FindReceiver(sys, meta, i);
      assert ids[i] == receiverId;
      assert FoundMap(ids, i + 1) == if receiverId != -1 then receiveMap[i := receiverId] else receiveMap;
      if receiverId != -1 {
        receiveMap := receiveMap[i := receiverId];
      }
      i := i + 1;
    }
  }
}
