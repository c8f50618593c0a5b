/**
 The scenarios of the gem's test suite, replayed on the model: the
 configuration of the fixture schema, the lookups its fields trigger, and
 the setup errors.
 */
module Fixtures {
  import opened Base
  import opened Classes
  import opened Registry
  import opened Dispatch

  const NotFound: ClassId := "Post::NotFound"
  const Invalid: ClassId := "Post::Invalid"
  const Oops: ClassId := "Post::Oops"
  const WorksOnMyMachine: ClassId := "Post::WorksOnMyMachine"

  /** Handler answering "Post is invalid". */
  const InvalidHandler: HandlerId := 1
  /** Handler answering "Something went wrong. Try again later". */
  const RetryHandler: HandlerId := 2

  /** The ancestors every `StandardError` descendant shares. */
  function ErrorChain(own: seq<ClassId>): seq<ClassId>
  {
    own + [StandardError, "Exception", "Object", "BasicObject"]
  }

  /** The block the fixture schema passes to `configure`. */
  const SchemaCalls: seq<RescueCall> := [
    RescueCall([ClassRef(NotFound), ClassRef(Invalid)], Some(InvalidHandler)),
    RescueCall([ClassRef(StandardError)], Some(RetryHandler))
  ]

  const SchemaRegistry: Registry :=
    [Entry(NotFound, InvalidHandler), Entry(Invalid, InvalidHandler), Entry(StandardError, RetryHandler)]

  lemma SchemaConfiguration()
    ensures Configure(Some(SchemaCalls)) == Success(SchemaRegistry)
  {
    var one := Put([], NotFound, InvalidHandler);
    assert Invalid !in KeySet(one);
    var two := Put(one, Invalid, InvalidHandler);
    assert two == [Entry(NotFound, InvalidHandler), Entry(Invalid, InvalidHandler)];
    assert PutAll([], [NotFound, Invalid], InvalidHandler) == PutAll(one, [Invalid], InvalidHandler);
    var three := Put(two, StandardError, RetryHandler);
    assert three == SchemaRegistry;
    assert Evaluate(two, SchemaCalls[1..]) == Success(three);
  }

  /** `post` raises `Post::NotFound`; the first entry catches it although
      `StandardError` would too. */
  lemma NotFoundIsInvalid()
    ensures FindHandler(SchemaRegistry, Exception(ErrorChain([NotFound]), "Post not found")) == Some(InvalidHandler)
  {
    assert EarliestCatch(SchemaRegistry, Exception(ErrorChain([NotFound]), "Post not found"), 0);
  }

  /** `category` raises `Post::Invalid`, the second class of the first call. */
  lemma InvalidIsInvalid()
    ensures FindHandler(SchemaRegistry, Exception(ErrorChain([Invalid]), "Post is invalid")) == Some(InvalidHandler)
  {
    assert EarliestCatch(SchemaRegistry, Exception(ErrorChain([Invalid]), "Post is invalid"), 1);
  }

  /** `description` raises `Post::Oops`, which nothing registers; the
      `StandardError` entry catches it. */
  lemma OopsIsRetried()
    ensures FindHandler(SchemaRegistry, Exception(ErrorChain([Oops]), "Can not parse the description")) ==
      Some(RetryHandler)
  {
    assert EarliestCatch(SchemaRegistry, Exception(ErrorChain([Oops]), "Can not parse the description"), 2);
  }

  /** A `Post::WorksOnMyMachine` (a subclass of `Post::Oops`, which nothing
      registers) is caught by the `StandardError` entry. */
  lemma SubclassCaughtByAncestor()
    ensures FindHandler(SchemaRegistry, Exception(ErrorChain([WorksOnMyMachine, Oops]), "")) == Some(RetryHandler)
  {
    assert EarliestCatch(SchemaRegistry, Exception(ErrorChain([WorksOnMyMachine, Oops]), ""), 2);
  }

  /** Scan order, not specificity, decides: a general entry registered first
      beats a specific one registered later. */
  lemma EarlierGeneralWins()
    ensures FindHandler([Entry(StandardError, RetryHandler), Entry(NotFound, InvalidHandler)],
                        Exception(ErrorChain([NotFound]), "")) == Some(RetryHandler)
  {
    assert EarliestCatch([Entry(StandardError, RetryHandler), Entry(NotFound, InvalidHandler)],
                         Exception(ErrorChain([NotFound]), ""), 0);
  }

  /** An exception no entry catches is raised again, the same object. The
      registry here is illustrative: it holds only `Post::Oops`, so an
      unrelated `Post::Boom` finds no handler. */
  lemma UnmatchedIsReraised<O, A, C, V>(obj: O, args: A, ctx: C, call: (HandlerId, Exception, O, A, C) -> Outcome<V>)
    ensures var boom := Exception(ErrorChain(["Post::Boom"]), "Boom");
      Rescue([Entry(Oops, RetryHandler)], Raised(boom), obj, args, ctx, call) == Raised(boom)
  {
  }

  /** A bare `rescue` does not catch what is not a `StandardError`, even
      when an entry for `Exception` would match it. */
  lemma NonStandardErrorNotRescued<O, A, C, V>(obj: O, args: A, ctx: C, call: (HandlerId, Exception, O, A, C) -> Outcome<V>)
    ensures var e := Exception(["NotImplementedError", "ScriptError", "Exception", "Object", "BasicObject"], "");
      FindHandler([Entry("Exception", RetryHandler)], e) == Some(RetryHandler) &&
      Rescue([Entry("Exception", RetryHandler)], Raised(e), obj, args, ctx, call) == Raised(e)
  {
    var e := Exception(["NotImplementedError", "ScriptError", "Exception", "Object", "BasicObject"], "");
    assert EarliestCatch([Entry("Exception", RetryHandler)], e, 0);
  }

  /** `configure` without a block. */
  lemma ConfigureWithoutBlock()
    ensures Configure(None) == Failure(EmptyConfigurationError)
  {
  }

  /** `rescue_from(StandardError)` without a block. */
  lemma RescueWithoutBlock()
    ensures Configure(Some([RescueCall([ClassRef(StandardError)], None)])) == Failure(EmptyRescueError)
  {
  }

  /** `rescue_from(1) { ... }`. */
  lemma IntegerNotRescuable()
    ensures Configure(Some([RescueCall([OtherObject("1")], Some(RetryHandler))])) == Failure(NotRescuableError("1"))
  {
  }

  /** A module that groups network errors behind `===` fails the
      `is_a?(Class)` test and is rejected. The gem's own test expects this
      call to succeed; the code as written raises. */
  lemma ModuleMatcherRejected()
    ensures RescueFrom([], [ModuleRef("NetworkErrors")], Some(RetryHandler)) ==
      Registration([], Some(NotRescuableError("NetworkErrors")))
  {
  }

  /** A non-class argument in the middle of a call: the class before it
      stays registered, the one after it never is. */
  lemma PartialRegistration()
    ensures RescueFrom([], [ClassRef(NotFound), OtherObject("1"), ClassRef(Invalid)], Some(InvalidHandler)) ==
      Registration([Entry(NotFound, InvalidHandler)], Some(NotRescuableError("1")))
  {
    assert ClassPrefix([ClassRef(NotFound), OtherObject("1"), ClassRef(Invalid)]) == [NotFound];
  }
}
