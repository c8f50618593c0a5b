/**
 Ruby classes and exceptions, as far as the error layer of graphql-errors
 observes them: a class is named by its constant, an exception is known by
 the ancestor chain of its class, and an argument to `rescue_from` is any
 Ruby object, of which only `Class` instances are accepted.
 */
module Classes {

  /** A Ruby class, identified by its fully-qualified constant name
      (`"StandardError"`, `"Post::NotFound"`). */
  type ClassId = string

  /** The class a bare `rescue => e` clause catches, together with its descendants. */
  const StandardError: ClassId := "StandardError"

  /** A raised exception. `ancestry` is the class chain of its class,
      self first, then each superclass up to the root. */
  datatype Exception = Exception(ancestry: seq<ClassId>, message: string)

  /** Ruby's `exception.is_a?(klass)`: `klass` is the exception's class
      or one of its ancestors. */
  predicate IsA(e: Exception, klass: ClassId)
  {
    klass in e.ancestry
  }

  /** An argument passed to `rescue_from`. Only a `Class` passes the
      `is_a?(Class)` test. A module (even one defining `===`, as the network
      error group of the test fixtures does) and any other object do not. */
  datatype RubyValue =
    | ClassRef(id: ClassId)
    | ModuleRef(name: string)
    | OtherObject(inspection: string)

  /** Ruby's `inspect`: the constant name for a class or module, the
      literal form of any other object (`1.inspect == "1"`). */
  function Inspect(v: RubyValue): string
  {
    match v
    case ClassRef(id) => id
    case ModuleRef(name) => name
    case OtherObject(text) => text
  }
}
