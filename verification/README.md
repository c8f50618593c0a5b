# graphql-errors: handler registry and dispatch

A Dafny model of the error layer of the `graphql-errors` gem
(`GraphQL::Errors`). At schema setup, `configure` runs a block of
`rescue_from` calls. Each call stores exception classes and a handler block
in an insertion-ordered hash. At request time, every field resolver runs
inside a `begin … rescue` region. A normal return passes through. A raised
`StandardError` goes to the handler of the first registered class it
`is_a?`. With no such class, the same exception is raised again.

Modules, one file each:

- `Base` (`base.dfy`): `Option` and `Result`.
- `Classes` (`classes.dfy`): a class is its constant name, and an exception
  is the ancestor chain of its class, self first. `is_a?` is membership in
  that chain. A `rescue_from` argument is a class, a module or any other
  object, and `inspect` gives its text.
- `Registry` (`registry.dfy`): the `@handler_by_class` hash as a sequence
  of entries with distinct keys. Also `||=`, the `classes.each` loop,
  `rescue_from`, the configuration block and `configure`.
- `Dispatch` (`dispatch.dfy`): `find_handler`, the shared `begin … rescue`
  logic (`Rescue`), `wrap_proc`, and the field extension's `resolve`.
- `Fixtures` (`fixtures.dfy`): the test suite's schema configuration and
  scenarios as concrete lemmas.

Handlers are opaque `HandlerId`s. Calling one is a function parameter
`call`, so what a handler returns or raises is the dispatch result as it
stands: a handler's exception is never reclassified. Object, arguments,
context and resolver values are type parameters. Resolvers are function
parameters returning `Returned(v)` or `Raised(e)`.

Three behaviours of the code are easy to misread; the model follows the
code:

- Registration is not all-or-nothing. `rescue_from` validates and stores in
  one loop (lib/graphql/errors.rb:54-57). A non-`Class` argument raises
  `NotRescuableError` after every class before it in the same call has been
  stored (`Registry.RescueFrom`, `Fixtures.PartialRegistration`).
- Only `Class` instances are accepted (line 55), and matching uses `is_a?`
  (line 76), not `===`. So a module that groups errors behind `===` is
  rejected with `NotRescuableError`. The test at
  spec/graphql/errors_spec.rb:27-31 expects this call to succeed
  (`Fixtures.ModuleMatcherRejected`).
- A bare `rescue => exception` catches only `StandardError` and its
  descendants (lines 65 and 88). Any other exception passes through even
  when a registered class, such as `Exception`, would match it
  (`Fixtures.NonStandardErrorNotRescued`).

## Model

| member | source | states |
|---|---|---|
| Registry.HandlerOf | lib/graphql/errors.rb:56 | the hash lookup `@handler_by_class[klass]` is nil exactly when the class is not a key; on a registry with distinct keys it is the handler stored with that key |
| Registry.Put | lib/graphql/errors.rb:56 | the or-assignment `@handler_by_class[klass] or= block` only ever extends the registry at its end; it adds the key if missing; a present key keeps its handler and position (length unchanged); a new key lands last with the call's block; keys stay distinct |
| Registry.PutAll | lib/graphql/errors.rb:54-57 | registering validated classes keeps the old registry, handlers and positions included, as a prefix; keys stay distinct |
| Registry.PutAllKeys | lib/graphql/errors.rb:54-57 | after registering validated classes, the keys are exactly the old keys plus the call's classes |
| Registry.PutAllAppends | lib/graphql/errors.rb:54-57 | every entry a call appends holds one of its classes that was not already registered, mapped to the call's block |
| Registry.PutAllKeepsArgumentOrder | lib/graphql/errors.rb:54-57 | the appended entries follow the order in which their classes first appear among the call's arguments |
| Registry.ClassPrefix | lib/graphql/errors.rb:54-55 | the classes the loop reaches before the first argument that fails `is_a?(Class)`: all of them when there is no such argument |
| Registry.Rejection | lib/graphql/errors.rb:52-55 | a missing block gives `EmptyRescueError`; otherwise the first non-class argument gives `NotRescuableError` with its `inspect`; there is no error exactly when a block is given and every argument is a class; never `EmptyConfigurationError` |
| Registry.EachClass | lib/graphql/errors.rb:54-57 | the interleaved validate-and-store loop stores exactly the classes before the first non-class argument, and raises that argument's `NotRescuableError` |
| Registry.RescueFrom | lib/graphql/errors.rb:51-58 | with no block, raises `EmptyRescueError` and leaves the registry unchanged; otherwise stores the classes before the first non-class argument (partial registration) and raises the error `Rejection` names |
| Registry.RescueFromHandlers | lib/graphql/errors.rb:51-58 | seen as a hash update, one call keeps every existing key's handler, maps each newly registered class to the call's block, and adds no other key |
| Registry.ExtensionKeepsHandlers | lib/graphql/errors.rb:56 | any later growth of the registry at its end keeps the handler of every key already present |
| Registry.Evaluate | lib/graphql/errors.rb:19-25 | the configuration block succeeds exactly when every call it makes has a block and only class arguments; on success the registry only grew at its end, keeps distinct keys, and no error is `EmptyConfigurationError` |
| Registry.EvaluateReportsFirstRejection | lib/graphql/errors.rb:24 | a failing configuration block fails with the error of its first rejected call |
| Registry.EvaluateHandlers | lib/graphql/errors.rb:51-58 | after an accepted configuration block, a class already present keeps its handler; otherwise a class maps to the block of the first call that registers it, whatever later calls name it again; a class no call registers is absent |
| Registry.ConfigureHandlers | lib/graphql/errors.rb:12-25 | the registry `configure` builds from an empty hash maps each class to the block of the first `rescue_from` call naming it, and holds no other class |
| Registry.Configure | lib/graphql/errors.rb:12-17 | no block gives `EmptyConfigurationError`, and nothing is built; otherwise it succeeds exactly when every `rescue_from` call is accepted, and the registry built has distinct keys |
| Dispatch.FindHandler | lib/graphql/errors.rb:74-80 | nil exactly when no entry's class is the exception's class or an ancestor; otherwise the handler of the earliest such entry in insertion order, whatever later, more specific entries exist |
| Dispatch.FindHandlerAppend | lib/graphql/errors.rb:74-80 | entries appended later never override a match among earlier entries; they are consulted only when no earlier entry matches |
| Dispatch.FindInAppended | lib/graphql/errors.rb:74-80 | when the old entries do not catch an exception, the entries a call appended catch it with that call's block exactly when one of its classes is an ancestor of the exception |
| Dispatch.FindAfterRescueFrom | lib/graphql/errors.rb:51-80 | after one `rescue_from`, the lookup keeps any existing match; otherwise it finds the call's block exactly when a class the call registered is an ancestor of the exception; otherwise it finds nothing |
| Dispatch.Rescue | lib/graphql/errors.rb:62-72 | a normal return passes through unchanged; an exception that is not a `StandardError` passes through; one no entry catches is re-raised identically; otherwise the result is the handler of the earliest catching entry applied to (exception, object, arguments, context) |
| Dispatch.WrapProc | lib/graphql/errors.rb:62-72 | a resolve or lazy resolve proc that returns normally yields exactly its value; an exception outside `StandardError`, or one no entry catches, is raised again unchanged; any other exception yields the outcome of the earliest catching entry's handler applied to (exception, object, arguments, context) |
| Dispatch.ExtensionResolve | lib/graphql/errors.rb:85-94 | the field extension's `resolve` passes a normal return of the yielded block through; an exception outside `StandardError`, or one no entry catches, is raised again unchanged; any other exception yields the outcome of the earliest catching entry's handler, context included |
| Dispatch.ExtensionAgreesWithWrapProc | lib/graphql/errors.rb:85-94 | the extension's `resolve` equals `wrap_proc` applied to the yielded block for every registry, input and handler behaviour |
| Dispatch.ReturnIgnoresHandlers | lib/graphql/errors.rb:62-64 | when the resolve proc, or the extension's yielded block, returns normally, `WrapProc` and `ExtensionResolve` give the same result whatever the registry and handlers are |
| Dispatch.FindHandlerUniform | lib/graphql/errors.rb:74-80 | if every entry maps to one handler, the lookup finds that handler or nothing |
| Fixtures.SchemaConfiguration | spec/fixtures/schema.rb:28-36 | the fixture schema's `configure` block builds `[NotFound→h1, Invalid→h1, StandardError→h2]` |
| Fixtures.NotFoundIsInvalid | spec/graphql/errors_spec.rb:70-83 | `Post::NotFound` is caught by the first entry even though `StandardError` also matches |
| Fixtures.InvalidIsInvalid | spec/graphql/errors_spec.rb:102-115 | `Post::Invalid` is caught by the second class of the first call |
| Fixtures.OopsIsRetried | spec/graphql/errors_spec.rb:117-130 | the `Post::Oops` that the `description` field raises is caught by the `StandardError` entry, since nothing registers `Post::Oops` itself |
| Fixtures.SubclassCaughtByAncestor | spec/fixtures/post.rb:4-7 | `Post::WorksOnMyMachine`, whose own class and parent are unregistered, is caught by the `StandardError` entry |
| Fixtures.EarlierGeneralWins | lib/graphql/errors.rb:75-77 | a general class registered first beats a specific class registered later |
| Fixtures.UnmatchedIsReraised | lib/graphql/errors.rb:68-69 | on an illustrative registry holding only `Post::Oops`, an unrelated `Post::Boom` finds no handler and is raised again unchanged |
| Fixtures.NonStandardErrorNotRescued | lib/graphql/errors.rb:63-65 | an exception outside `StandardError` is not rescued even when an entry for `Exception` matches it |
| Fixtures.ConfigureWithoutBlock | spec/graphql/errors_spec.rb:7-10 | `configure` without a block fails with `EmptyConfigurationError` |
| Fixtures.RescueWithoutBlock | spec/graphql/errors_spec.rb:39-42 | `rescue_from(StandardError)` without a block fails with `EmptyRescueError` |
| Fixtures.IntegerNotRescuable | spec/graphql/errors_spec.rb:33-36 | `rescue_from(1)` fails with `NotRescuableError("1")` |
| Fixtures.ModuleMatcherRejected | spec/graphql/errors_spec.rb:27-31 | a module matching through `===` is rejected with `NotRescuableError`; the test expects success, and the code disagrees |
| Fixtures.PartialRegistration | lib/graphql/errors.rb:54-57 | in `rescue_from(NotFound, 1, Invalid)`, `NotFound` stays registered, `Invalid` is never reached, and the error carries `"1"` |

## Left out

- Schema attachment is not modelled: `schema.instrument`, `instrument`, `field.redefine`, `type_class.extension` and `field.metadata` (lib/graphql/errors.rb:16, 27-49). On the instrumentation path these hooks route a field's resolve proc and its lazy resolve proc into `WrapProc`. On the extension path (lines 30-32) they attach the extension, whose `resolve` protects only the yielded block (`ExtensionResolve`). That path never redefines `lazy_resolve_proc`, so lazy resolution there is outside this layer.
- The `Gem::Version` check and the `Class.new(FieldExtension)` / `const_set` generation (lib/graphql/errors.rb:21-23, 82-100) are left out. They decide which hook is used, and both hooks share `Rescue`.
- Lazy values (BatchLoader), `context.add_error` and response serialisation are external collaborators. A lazy value is just a `V` that a resolver returns.
- Handler bodies are not modelled. A handler is an opaque `HandlerId`, and calling one is the parameter `call`.
- Class identity is modelled as the constant name. Anonymous classes, and modules mixed into an exception's ancestry, are not modelled. Ancestors that are modules never match, because registry keys are always classes.
- A configuration block is modelled as a straight-line sequence of `rescue_from` calls. A block that rescues a setup error itself and carries on is not modelled. `RescueFrom` still describes the state such a block would see.
- Registry.Evaluate: does not describe the registry of a failed block, because `configure` then raises and no instance is attached.
