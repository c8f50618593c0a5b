/**
 Request-time dispatch of `GraphQL::Errors`: the first-match lookup
 `find_handler`, and the protected call shared by `wrap_proc` (used by both
 the synchronous and the lazy resolve procs) and the field extension's
 `resolve`.
 */
module Dispatch {
  import opened Base
  import opened Classes
  import opened Registry

  /** What running a resolver, or a handler, produced: a value (any Ruby
      object, `nil` included), or a raised exception. */
  datatype Outcome<V> = Returned(value: V) | Raised(exception: Exception)

  /** The entry's class is the exception's class or one of its ancestors. */
  predicate Catches(entry: Entry, e: Exception)
  {
    IsA(e, entry.klass)
  }

  /** `reg[i]` is the first entry, in insertion order, that catches `e`. */
  predicate EarliestCatch(reg: Registry, e: Exception, i: int)
  {
    0 <= i < |reg| && Catches(reg[i], e) && forall j :: 0 <= j < i ==> !Catches(reg[j], e)
  }

  /** `find_handler(exception)`: scan the entries in insertion order and
      return the handler of the first whose class `exception.is_a?`, or `nil`.
      A later entry never wins over an earlier one, however specific its
      class is. */
  function FindHandler(reg: Registry, e: Exception): (r: Option<HandlerId>)
    ensures r.None? <==> forall i :: 0 <= i < |reg| ==> !Catches(reg[i], e)
    ensures forall i :: EarliestCatch(reg, e, i) ==> r == Some(reg[i].handler)
    ensures r.Some? ==> exists i :: EarliestCatch(reg, e, i) && r.value == reg[i].handler
  {
    if |reg| == 0 then None
    else if Catches(reg[0], e) then
      assert EarliestCatch(reg, e, 0);
      Some(reg[0].handler)
    else
      var r := FindHandler(reg[1..], e);
      assert forall i :: 1 <= i < |reg| ==> reg[i] == reg[1..][i - 1];
      assert forall i :: EarliestCatch(reg, e, i) ==> EarliestCatch(reg[1..], e, i - 1);
      assert forall i :: EarliestCatch(reg[1..], e, i) ==> EarliestCatch(reg, e, i + 1);
      r
  }

  /** The `begin ... rescue => exception ... end` of `wrap_proc` and of the
      extension's `resolve`, applied to what the original resolver produced.
      A normal return passes through. A bare `rescue` only catches
      `StandardError` and its descendants, so any other exception passes
      through too. A caught exception goes to the handler of the earliest
      entry that catches it, called with (exception, object, arguments,
      context); what that call produces, a raise included, is the result.
      With no such entry the same exception is raised again. */
  function Rescue<O, A, C, V>(reg: Registry, attempt: Outcome<V>, obj: O, args: A, ctx: C,
                                call: (HandlerId, Exception, O, A, C) -> Outcome<V>): (r: Outcome<V>)
    ensures attempt.Returned? ==> r == attempt
    ensures attempt.Raised? && !IsA(attempt.exception, StandardError) ==> r == attempt
    ensures attempt.Raised? && (forall i :: 0 <= i < |reg| ==> !Catches(reg[i], attempt.exception)) ==>
      r == attempt
    ensures forall i ::
      (attempt.Raised? && IsA(attempt.exception, StandardError) && EarliestCatch(reg, attempt.exception, i)) ==>
        r == call(reg[i].handler, attempt.exception, obj, args, ctx)
  {
    match attempt
    case Returned(_) => attempt
    case Raised(e) =>
      if !IsA(e, StandardError) then attempt
      else match FindHandler(reg, e)
        case Some(h) => call(h, e, obj, args, ctx)
        case None => Raised(e)
  }

  /** `wrap_proc(object, arguments, context, old_proc)`: the replacement
      resolve proc and lazy resolve proc both call this with their original
      proc. A normal return, an exception outside `StandardError` and an
      exception no entry catches come back untouched; any other exception
      goes to the handler of the earliest entry that catches it. */
  function WrapProc<O, A, C, V>(reg: Registry, obj: O, args: A, ctx: C,
                                oldProc: (O, A, C) -> Outcome<V>,
                                call: (HandlerId, Exception, O, A, C) -> Outcome<V>): (r: Outcome<V>)
    ensures oldProc(obj, args, ctx).Returned? ==> r == oldProc(obj, args, ctx)
    ensures r == oldProc(obj, args, ctx) ||
      (oldProc(obj, args, ctx).Raised? &&
       exists i :: 0 <= i < |reg| && r == call(reg[i].handler, oldProc(obj, args, ctx).exception, obj, args, ctx))
    ensures var out := oldProc(obj, args, ctx);
      (out.Raised? && (!IsA(out.exception, StandardError) ||
                       forall i :: 0 <= i < |reg| ==> !Catches(reg[i], out.exception))) ==>
        r == out
    ensures var out := oldProc(obj, args, ctx);
      forall i :: (out.Raised? && IsA(out.exception, StandardError) && EarliestCatch(reg, out.exception, i)) ==>
        r == call(reg[i].handler, out.exception, obj, args, ctx)
  {
    Rescue(reg, oldProc(obj, args, ctx), obj, args, ctx, call)
  }

  /** The field extension's `resolve(object:, arguments:, context:)`, where
      `next` is the block it yields (object, arguments) to. Only that yield
      is protected; the context still reaches the handler. */
  function ExtensionResolve<O, A, C, V>(reg: Registry, obj: O, args: A, ctx: C,
                                        next: (O, A) -> Outcome<V>,
                                        call: (HandlerId, Exception, O, A, C) -> Outcome<V>): (r: Outcome<V>)
    ensures next(obj, args).Returned? ==> r == next(obj, args)
    ensures r == next(obj, args) ||
      (next(obj, args).Raised? &&
       exists i :: 0 <= i < |reg| && r == call(reg[i].handler, next(obj, args).exception, obj, args, ctx))
    ensures var out := next(obj, args);
      (out.Raised? && (!IsA(out.exception, StandardError) ||
                       forall i :: 0 <= i < |reg| ==> !Catches(reg[i], out.exception))) ==>
        r == out
    ensures var out := next(obj, args);
      forall i :: (out.Raised? && IsA(out.exception, StandardError) && EarliestCatch(reg, out.exception, i)) ==>
        r == call(reg[i].handler, out.exception, obj, args, ctx)
  {
    Rescue(reg, next(obj, args), obj, args, ctx, call)
  }

  /** Both integration styles dispatch identically: the extension behaves as
      `wrap_proc` given a proc that ignores the context. */
  lemma ExtensionAgreesWithWrapProc<O, A, C, V>(reg: Registry, obj: O, args: A, ctx: C,
                                               next: (O, A) -> Outcome<V>,
                                               call: (HandlerId, Exception, O, A, C) -> Outcome<V>)
    ensures ExtensionResolve(reg, obj, args, ctx, next, call) ==
      WrapProc(reg, obj, args, ctx, (o: O, a: A, c: C) => next(o, a), call)
  {
  }

  /** A resolver that returns normally is answered without consulting the
      registry or any handler, on both integration paths. */
  lemma ReturnIgnoresHandlers<O, A, C, V>(reg1: Registry, reg2: Registry, obj: O, args: A, ctx: C,
                                          oldProc: (O, A, C) -> Outcome<V>, next: (O, A) -> Outcome<V>,
                                          call1: (HandlerId, Exception, O, A, C) -> Outcome<V>,
                                          call2: (HandlerId, Exception, O, A, C) -> Outcome<V>)
    ensures oldProc(obj, args, ctx).Returned? ==>
      WrapProc(reg1, obj, args, ctx, oldProc, call1) == WrapProc(reg2, obj, args, ctx, oldProc, call2)
    ensures next(obj, args).Returned? ==>
      ExtensionResolve(reg1, obj, args, ctx, next, call1) == ExtensionResolve(reg2, obj, args, ctx, next, call2)
  {
  }

  /** Lookup over a registry that was extended at its end: an entry of the
      old part that catches the exception still wins; only when none does is
      the new part consulted. */
  lemma {:induction false} FindHandlerAppend(reg: Registry, more: Registry, e: Exception)
    ensures FindHandler(reg + more, e) ==
      if FindHandler(reg, e).Some? then FindHandler(reg, e) else FindHandler(more, e)
  {
    if |reg| > 0 {
      assert (reg + more)[1..] == reg[1..] + more;
      FindHandlerAppend(reg[1..], more, e);
    } else {
      assert reg + more == more;
    }
  }

  /** When every entry maps to `h`, the lookup finds `h` or nothing. */
  lemma FindHandlerUniform(reg: Registry, e: Exception, h: HandlerId)
    requires forall i :: 0 <= i < |reg| ==> reg[i].handler == h
    ensures FindHandler(reg, e).Some? ==> FindHandler(reg, e) == Some(h)
  {
  }

  /** A lookup that the old entries cannot answer, after `PutAll` appended
      entries for `ks`: it finds `h` exactly when a class of `ks` is among
      the exception's ancestors. */
  lemma FindInAppended(reg: Registry, ks: seq<ClassId>, h: HandlerId, e: Exception)
    requires FindHandler(reg, e).None?
    ensures FindHandler(PutAll(reg, ks, h), e) ==
      if exists k :: k in ks && IsA(e, k) then Some(h) else None
  {
    var after := PutAll(reg, ks, h);
    var tail := after[|reg|..];
    assert after == reg + tail;
    FindHandlerAppend(reg, tail, e);
    PutAllAppends(reg, ks, h);
    PutAllKeys(reg, ks, h);
    assert forall i :: 0 <= i < |tail| ==> tail[i] == after[|reg| + i];
    FindHandlerUniform(tail, e, h);
    if k :| k in ks && IsA(e, k) {
      var i := KeyIndex(after, k);
      if i < |reg| {
        assert Catches(reg[i], e);
        assert false;
      }
      assert Catches(tail[i - |reg|], e);
    } else {
      forall i | 0 <= i < |tail| ensures !Catches(tail[i], e) {
        assert after[|reg| + i].klass in ks;
      }
    }
  }

  /** How one `rescue_from` call changes what a later lookup finds: an
      exception that an existing entry already catches keeps its handler;
      otherwise it is caught by the call's block exactly when one of the
      classes the call registered is among its ancestors. */
  lemma FindAfterRescueFrom(reg: Registry, args: seq<RubyValue>, block: Option<HandlerId>, e: Exception)
    ensures FindHandler(RescueFrom(reg, args, block).registry, e) ==
      if FindHandler(reg, e).Some? then FindHandler(reg, e)
      else if block.Some? && exists k :: k in ClassPrefix(args) && IsA(e, k) then Some(block.value)
      else None
  {
    if block.Some? {
      var after := RescueFrom(reg, args, block).registry;
      assert after == reg + after[|reg|..];
      FindHandlerAppend(reg, after[|reg|..], e);
      if FindHandler(reg, e).None? {
        FindInAppended(reg, ClassPrefix(args), block.value, e);
      }
    }
  }
}
