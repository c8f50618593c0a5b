/**
 The handler registry of `GraphQL::Errors`: the insertion-ordered
 `@handler_by_class` hash, filled by `rescue_from` calls made while the
 `configure` block runs.
 */
module Registry {
  import opened Base
  import opened Classes

  /** An opaque handler block; what it does when called is a parameter of dispatch. */
  type HandlerId = nat

  /** One key/value pair of `@handler_by_class`. */
  datatype Entry = Entry(klass: ClassId, handler: HandlerId)

  /** The hash as its entries in insertion order (Ruby hashes keep that order). */
  type Registry = seq<Entry>

  /** The errors raised while configuring. */
  datatype ConfigError =
    | EmptyConfigurationError
    | EmptyRescueError
    | NotRescuableError(message: string)

  /** The state after one `rescue_from` call: the registry as it now stands,
      and the error the call raised, if any. A raise does not undo entries
      already stored by the same call. */
  datatype Registration = Registration(registry: Registry, raised: Option<ConfigError>)

  /** One `rescue_from(*classes, &block)` call inside a configuration block. */
  datatype RescueCall = RescueCall(args: seq<RubyValue>, block: Option<HandlerId>)

  /** The keys of the hash. */
  function KeySet(reg: Registry): set<ClassId>
  {
    if |reg| == 0 then {} else {reg[0].klass} + KeySet(reg[1..])
  }

  /** A hash never holds a key twice. */
  predicate DistinctKeys(reg: Registry)
  {
    forall i, j :: 0 <= i < j < |reg| ==> reg[i].klass != reg[j].klass
  }

  /** Every entry's class is a key. */
  lemma {:induction false} KeysAtIndices(reg: Registry)
    ensures forall i :: 0 <= i < |reg| ==> reg[i].klass in KeySet(reg)
  {
    if |reg| > 0 {
      KeysAtIndices(reg[1..]);
      assert forall i :: 1 <= i < |reg| ==> reg[i] == reg[1..][i - 1];
    }
  }

  /** Every key is held by some entry. */
  lemma {:induction false} KeyIndex(reg: Registry, klass: ClassId) returns (i: nat)
    requires klass in KeySet(reg)
    ensures i < |reg| && reg[i].klass == klass
  {
    if reg[0].klass == klass {
      i := 0;
    } else {
      var j := KeyIndex(reg[1..], klass);
      i := j + 1;
    }
  }

  /** Appending an entry adds its class to the keys. */
  lemma {:induction false} KeySetSnoc(reg: Registry, e: Entry)
    ensures KeySet(reg + [e]) == KeySet(reg) + {e.klass}
  {
    if |reg| > 0 {
      assert (reg + [e])[1..] == reg[1..] + [e];
      KeySetSnoc(reg[1..], e);
    } else {
      assert KeySet([e]) == {e.klass} + KeySet([e][1..]);
    }
  }

  /** `@handler_by_class[klass]`: the handler stored under exactly this key. */
  function HandlerOf(reg: Registry, klass: ClassId): (r: Option<HandlerId>)
    ensures r.None? <==> klass !in KeySet(reg)
    ensures DistinctKeys(reg) ==>
      forall i :: 0 <= i < |reg| && reg[i].klass == klass ==> r == Some(reg[i].handler)
  {
    if |reg| == 0 then None
    else if reg[0].klass == klass then Some(reg[0].handler)
    else
      var r := HandlerOf(reg[1..], klass);
      assert DistinctKeys(reg) ==> DistinctKeys(reg[1..]);
      assert forall i :: 1 <= i < |reg| ==> reg[i] == reg[1..][i - 1];
      r
  }

  /** `@handler_by_class[klass] ||= block`. A handler block is never `nil`,
      so this stores the pair only when the key is absent; a present key
      keeps both its handler and its position. */
  function Put(reg: Registry, klass: ClassId, h: HandlerId): (r: Registry)
    ensures reg <= r
    ensures KeySet(r) == KeySet(reg) + {klass}
    ensures klass in KeySet(reg) ==> |r| == |reg|
    ensures klass !in KeySet(reg) ==> |r| == |reg| + 1 && r[|reg|] == Entry(klass, h)
    ensures DistinctKeys(reg) ==> DistinctKeys(r)
  {
    if HandlerOf(reg, klass).Some? then reg
    else
      KeySetSnoc(reg, Entry(klass, h));
      KeysAtIndices(reg);
      reg + [Entry(klass, h)]
  }

  /** Index of the first occurrence of `k` in `ks`. */
  function FirstIndex(ks: seq<ClassId>, k: ClassId): (n: nat)
    requires k in ks
    ensures n < |ks| && ks[n] == k
    ensures forall j :: 0 <= j < n ==> ks[j] != k
  {
    if ks[0] == k then 0 else 1 + FirstIndex(ks[1..], k)
  }

  /** `ks.each { |klass| @handler_by_class[klass] ||= h }` over classes that
      all pass validation: the registry only grows at its end, and keys stay
      distinct. */
  function PutAll(reg: Registry, ks: seq<ClassId>, h: HandlerId): (r: Registry)
    ensures reg <= r
    ensures DistinctKeys(reg) ==> DistinctKeys(r)
    decreases |ks|
  {
    if |ks| == 0 then reg
    else PutAll(Put(reg, ks[0], h), ks[1..], h)
  }

  /** After `PutAll` the keys are those the registry had plus the classes of `ks`. */
  lemma {:induction false} PutAllKeys(reg: Registry, ks: seq<ClassId>, h: HandlerId)
    ensures KeySet(PutAll(reg, ks, h)) == KeySet(reg) + set k | k in ks
    decreases |ks|
  {
    if |ks| > 0 {
      assert (set k | k in ks) == {ks[0]} + set k | k in ks[1..];
      PutAllKeys(Put(reg, ks[0], h), ks[1..], h);
    }
  }

  /** Every entry of `r` past the prefix `reg` holds a class of `ks` that
      `reg` lacked, mapped to `h`. */
  predicate AppendsFrom(reg: Registry, r: Registry, ks: seq<ClassId>, h: HandlerId)
  {
    forall i :: |reg| <= i < |r| ==> r[i].handler == h && r[i].klass in ks && r[i].klass !in KeySet(reg)
  }

  /** The entries of `r` past the prefix `reg` follow the order in which
      their classes first occur in `ks`. */
  predicate InArgumentOrder(reg: Registry, r: Registry, ks: seq<ClassId>)
  {
    forall i, j :: |reg| <= i < j < |r| ==>
      r[i].klass in ks && r[j].klass in ks && FirstIndex(ks, r[i].klass) < FirstIndex(ks, r[j].klass)
  }

  /** The entries one `PutAll` appends are classes of `ks` that were not
      yet present, each mapped to `h`. */
  lemma {:induction false} PutAllAppends(reg: Registry, ks: seq<ClassId>, h: HandlerId)
    ensures AppendsFrom(reg, PutAll(reg, ks, h), ks, h)
    decreases |ks|
  {
    if |ks| > 0 {
      var next := Put(reg, ks[0], h);
      var r := PutAll(next, ks[1..], h);
      assert r == PutAll(reg, ks, h);
      PutAllAppends(next, ks[1..], h);
      forall i | |reg| <= i < |r|
        ensures r[i].handler == h && r[i].klass in ks && r[i].klass !in KeySet(reg)
      {
        if i < |next| {
          assert r[i] == next[i] == Entry(ks[0], h);
        } else {
          assert r[i].klass in ks[1..];
        }
      }
    }
  }

  /** `PutAll` appends its new classes in the order in which they first
      occur in `ks`. */
  lemma {:induction false} PutAllKeepsArgumentOrder(reg: Registry, ks: seq<ClassId>, h: HandlerId)
    ensures InArgumentOrder(reg, PutAll(reg, ks, h), ks)
    decreases |ks|
  {
    if |ks| > 0 {
      var next := Put(reg, ks[0], h);
      var r := PutAll(next, ks[1..], h);
      assert r == PutAll(reg, ks, h);
      PutAllAppends(next, ks[1..], h);
      PutAllKeepsArgumentOrder(next, ks[1..], h);
      forall i, j | |reg| <= i < j < |r|
        ensures r[i].klass in ks && r[j].klass in ks && FirstIndex(ks, r[i].klass) < FirstIndex(ks, r[j].klass)
      {
        assert r[j].klass in ks[1..] && r[j].klass != ks[0];
        if i < |next| {
          assert r[i] == next[i] == Entry(ks[0], h);
        } else {
          assert r[i].klass in ks[1..] && r[i].klass != ks[0];
        }
      }
    }
  }

  /** The classes that precede the first argument failing `is_a?(Class)`;
      all of them when every argument is a class. */
  function ClassPrefix(args: seq<RubyValue>): (ks: seq<ClassId>)
    ensures |ks| <= |args|
    ensures forall i :: 0 <= i < |ks| ==> args[i] == ClassRef(ks[i])
    ensures |ks| < |args| ==> !args[|ks|].ClassRef?
  {
    if |args| == 0 || !args[0].ClassRef? then []
    else [args[0].id] + ClassPrefix(args[1..])
  }

  /** `args[n]` is the first argument that is not a class. */
  predicate FirstNonClass(args: seq<RubyValue>, n: int)
  {
    0 <= n < |args| && !args[n].ClassRef? && forall i :: 0 <= i < n ==> args[i].ClassRef?
  }

  /** The error a `rescue_from(*args, &block)` call raises, if any: a missing
      block first, then the first non-class argument. */
  function Rejection(args: seq<RubyValue>, block: Option<HandlerId>): (r: Option<ConfigError>)
    ensures block.None? ==> r == Some(EmptyRescueError)
    ensures r.Some? ==> !r.value.EmptyConfigurationError?
    ensures r.None? <==> block.Some? && forall i :: 0 <= i < |args| ==> args[i].ClassRef?
    ensures forall n :: block.Some? && FirstNonClass(args, n) ==>
      r == Some(NotRescuableError(Inspect(args[n])))
  {
    if block.None? then Some(EmptyRescueError)
    else
      var n := |ClassPrefix(args)|;
      if n == |args| then None else Some(NotRescuableError(Inspect(args[n])))
  }

  /** The `classes.each` loop of `rescue_from`: validation and insertion
      interleaved, so a non-class argument raises only after every class
      before it has been stored. */
  function EachClass(reg: Registry, args: seq<RubyValue>, h: HandlerId): (res: Registration)
    ensures res.registry == PutAll(reg, ClassPrefix(args), h)
    ensures res.raised == Rejection(args, Some(h))
    decreases |args|
  {
    if |args| == 0 then Registration(reg, None)
    else match args[0]
      case ClassRef(k) =>
        var res := EachClass(Put(reg, k, h), args[1..], h);
        assert ClassPrefix(args)[1..] == ClassPrefix(args[1..]);
        assert forall n :: FirstNonClass(args, n) ==> FirstNonClass(args[1..], n - 1);
        res
      case _ => Registration(reg, Some(NotRescuableError(Inspect(args[0]))))
  }

  /** `rescue_from(*args, &block)`. With no block it raises
      `EmptyRescueError` before touching the registry. Otherwise every class
      before the first non-class argument is registered as `PutAll`
      describes, and that argument, if there is one, raises
      `NotRescuableError` carrying its `inspect`. */
  function RescueFrom(reg: Registry, args: seq<RubyValue>, block: Option<HandlerId>): (res: Registration)
    ensures block.None? ==> res.registry == reg
    ensures block.Some? ==> res.registry == PutAll(reg, ClassPrefix(args), block.value)
    ensures res.raised == Rejection(args, block)
  {
    if block.None? then Registration(reg, Some(EmptyRescueError))
    else EachClass(reg, args, block.value)
  }

  /** A registry that extends `reg` at its end, keys still distinct, maps
      every key of `reg` to the handler `reg` maps it to. */
  lemma ExtensionKeepsHandlers(reg: Registry, r: Registry, klass: ClassId)
    requires reg <= r && DistinctKeys(r)
    requires klass in KeySet(reg)
    ensures HandlerOf(r, klass) == HandlerOf(reg, klass)
  {
    var i := KeyIndex(reg, klass);
    assert r[i] == reg[i];
    assert DistinctKeys(reg) by {
      assert forall j :: 0 <= j < |reg| ==> reg[j] == r[j];
    }
  }

  /** `rescue_from` seen as a hash update: a key already present keeps its
      handler, a class the call registered maps to the call's block, and no
      other key appears. */
  lemma RescueFromHandlers(reg: Registry, args: seq<RubyValue>, block: Option<HandlerId>, klass: ClassId)
    requires DistinctKeys(reg)
    ensures HandlerOf(RescueFrom(reg, args, block).registry, klass) ==
      if klass in KeySet(reg) then HandlerOf(reg, klass)
      else if block.Some? && klass in ClassPrefix(args) then Some(block.value)
      else None
  {
    var after := RescueFrom(reg, args, block).registry;
    if block.Some? {
      PutAllKeys(reg, ClassPrefix(args), block.value);
    }
    if klass in KeySet(reg) {
      ExtensionKeepsHandlers(reg, after, klass);
    } else if block.Some? && klass in ClassPrefix(args) {
      PutAllAppends(reg, ClassPrefix(args), block.value);
      // the entry holding `klass` lies past `reg`, so it holds the block
      var i := KeyIndex(after, klass);
      KeysAtIndices(reg);
    }
  }

  /** The call raises nothing. */
  predicate Accepted(c: RescueCall)
  {
    c.block.Some? && forall i :: 0 <= i < |c.args| ==> c.args[i].ClassRef?
  }

  /** `calls[n]` is the first call that raises. */
  predicate FirstRejected(calls: seq<RescueCall>, n: int)
  {
    0 <= n < |calls| && !Accepted(calls[n]) && forall i :: 0 <= i < n ==> Accepted(calls[i])
  }

  /** `instance_eval(&block)` for a block made of `rescue_from` calls: they
      run in order on the one registry, and the first error raised escapes
      the block and aborts the rest. */
  function Evaluate(reg: Registry, calls: seq<RescueCall>): (r: Result<Registry, ConfigError>)
    ensures r.Success? <==> forall i :: 0 <= i < |calls| ==> Accepted(calls[i])
    ensures r.Success? ==> reg <= r.value
    ensures r.Success? && DistinctKeys(reg) ==> DistinctKeys(r.value)
    ensures r.Failure? ==> !r.error.EmptyConfigurationError?
    decreases |calls|
  {
    if |calls| == 0 then Success(reg)
    else
      var step := RescueFrom(reg, calls[0].args, calls[0].block);
      if step.raised.Some? then Failure(step.raised.value)
      else Evaluate(step.registry, calls[1..])
  }

  /** A failed configuration block reports the error of its first rejected call. */
  lemma {:induction false} EvaluateReportsFirstRejection(reg: Registry, calls: seq<RescueCall>, n: int)
    requires FirstRejected(calls, n)
    ensures Evaluate(reg, calls) == Failure(Rejection(calls[n].args, calls[n].block).value)
    decreases |calls|
  {
    var step := RescueFrom(reg, calls[0].args, calls[0].block);
    if n > 0 {
      assert Accepted(calls[0]);
      assert FirstRejected(calls[1..], n - 1);
      EvaluateReportsFirstRejection(step.registry, calls[1..], n - 1);
    }
  }

  /** `calls[n]` is the first call of the block that registers `klass`. */
  predicate FirstRegisters(calls: seq<RescueCall>, klass: ClassId, n: int)
  {
    0 <= n < |calls| && klass in ClassPrefix(calls[n].args) &&
    forall i :: 0 <= i < n ==> klass !in ClassPrefix(calls[i].args)
  }

  /** What an accepted configuration block builds, key by key: a class
      already present keeps its handler; otherwise a class maps to the block
      of the first call that registers it, later calls for the same class
      changing nothing; a class no call registers is absent. */
  lemma {:induction false} EvaluateHandlers(reg: Registry, calls: seq<RescueCall>, klass: ClassId)
    requires DistinctKeys(reg)
    requires forall i :: 0 <= i < |calls| ==> Accepted(calls[i])
    ensures klass in KeySet(reg) ==>
      HandlerOf(Evaluate(reg, calls).value, klass) == HandlerOf(reg, klass)
    ensures forall n :: klass !in KeySet(reg) && FirstRegisters(calls, klass, n) ==>
      HandlerOf(Evaluate(reg, calls).value, klass) == Some(calls[n].block.value)
    ensures klass !in KeySet(reg) && (forall i :: 0 <= i < |calls| ==> klass !in ClassPrefix(calls[i].args)) ==>
      HandlerOf(Evaluate(reg, calls).value, klass) == None
    decreases |calls|
  {
    if |calls| > 0 {
      var step := RescueFrom(reg, calls[0].args, calls[0].block);
      assert Accepted(calls[0]);
      assert Evaluate(reg, calls) == Evaluate(step.registry, calls[1..]);
      RescueFromHandlers(reg, calls[0].args, calls[0].block, klass);
      EvaluateHandlers(step.registry, calls[1..], klass);
      if klass !in KeySet(reg) && klass !in ClassPrefix(calls[0].args) {
        assert forall n :: FirstRegisters(calls, klass, n) ==> FirstRegisters(calls[1..], klass, n - 1);
      }
    }
  }

  /** `GraphQL::Errors.configure(schema, &block)`: no block raises
      `EmptyConfigurationError`; otherwise the block runs against an empty
      registry and the resulting instance owns what it built. */
  function Configure(block: Option<seq<RescueCall>>): (r: Result<Registry, ConfigError>)
    ensures block.None? ==> r == Failure(EmptyConfigurationError)
    ensures r.Success? <==> block.Some? && forall i :: 0 <= i < |block.value| ==> Accepted(block.value[i])
    ensures r.Success? ==> DistinctKeys(r.value)
    ensures r.Failure? && block.Some? ==> r.error != EmptyConfigurationError
  {
    if block.None? then Failure(EmptyConfigurationError)
    else Evaluate([], block.value)
  }
  /** The registry `configure` builds maps each class to the block of the
      first `rescue_from` call that names it, and holds no other class. */
  lemma ConfigureHandlers(calls: seq<RescueCall>, klass: ClassId)
    requires forall i :: 0 <= i < |calls| ==> Accepted(calls[i])
    ensures forall n :: FirstRegisters(calls, klass, n) ==>
      HandlerOf(Configure(Some(calls)).value, klass) == Some(calls[n].block.value)
    ensures (forall i :: 0 <= i < |calls| ==> klass !in ClassPrefix(calls[i].args)) ==>
      HandlerOf(Configure(Some(calls)).value, klass) == None
  {
    EvaluateHandlers([], calls, klass);
  }

}
