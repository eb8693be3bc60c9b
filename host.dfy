/** What the whitelist policy sees of the host runtime: classes and their members as plain
    descriptors, and the class loader, reflection, character tables and the subtype relation as
    functions supplied from outside. */
module Host {
  import opened Wrappers

  /** A loaded class (a primitive type and an array type included), known only by its identity. */
  datatype Class = Class(id: nat)

  /** A reflected method. Its return type is recorded but plays no part in whitelisting. */
  datatype Method = Method(declaringClass: Class, name: string, parameterTypes: seq<Class>, returnType: Class)

  /** A reflected constructor. */
  datatype Constructor = Constructor(declaringClass: Class, parameterTypes: seq<Class>)

  /** A reflected field. Its type plays no part in whitelisting. */
  datatype Field = Field(declaringClass: Class, name: string, fieldType: Class)

  /** Any of the three kinds of member, as handed to the annotation lookup. */
  datatype Member = MethodMember(m: Method) | ConstructorMember(ctor: Constructor) | FieldMember(f: Field)

  /** `Character.isJavaIdentifierStart` and `Character.isJavaIdentifierPart`. */
  datatype CharClass = CharClass(identifierStart: char -> bool, identifierPart: char -> bool) {
    /** The one fact about the Unicode tables that parsing relies on: a dot is neither. */
    predicate Valid() {
      !identifierStart('.') && !identifierPart('.')
    }
  }

  /** The class loader and reflection calls, each answering `None` where Java throws
      ClassNotFoundException, NoSuchMethodException, NoSuchFieldException or SecurityException.
      `primitiveClass` is `_ClassUtils.resolveIfPrimitiveTypeName`, `arrayClass(c, n)` is
      `_ClassUtils.getArrayClass(c, n)`, and `simpleName` is `Class.getSimpleName`. */
  datatype Resolver = Resolver(
    loadClass: string -> Option<Class>,
    primitiveClass: string -> Option<Class>,
    arrayClass: (Class, nat) -> Class,
    simpleName: Class -> string,
    getConstructor: (Class, seq<Class>) -> Option<Constructor>,
    getMethod: (Class, string, seq<Class>) -> Option<Method>,
    getField: (Class, string) -> Option<Field>)

  /** `isSubtypeOf(c, u)` holds when instances of c are `instanceof` u (`u.isAssignableFrom(c)`). */
  datatype TypeHierarchy = TypeHierarchy(isSubtypeOf: (Class, Class) -> bool) {
    /** Every class is a subtype of itself, and subtyping composes. */
    ghost predicate Valid() {
      && (forall c :: isSubtypeOf(c, c))
      && (forall a, b, c :: isSubtypeOf(a, b) && isSubtypeOf(b, c) ==> isSubtypeOf(a, c))
    }
  }
}
