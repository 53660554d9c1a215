/** `ClassNotInitializedError`: the error the guarded singletons throw when
    they are used before their `createX` factory has run. */
module NotInitialized {

  /** The fields of the thrown `Error` that the constructor sets. */
  datatype NotInitializedError = NotInitializedError(name: string, message: string)

  /** The message every instance carries, whatever class it names. */
  const InitMessage: string := "Class must be initialized with createClass before using it"

  /** Appended to the class name to form the error's `name`. */
  const NameSuffix: string := "NotInitializedError"

  /** `new ClassNotInitializedError(className)`. */
  function ClassNotInitializedError(className: string): (e: NotInitializedError)
    ensures e.message == InitMessage
    ensures |e.name| == |className| + |NameSuffix|
    ensures e.name[..|className|] == className
    ensures e.name[|className|..] == NameSuffix
  {
    NotInitializedError(className + NameSuffix, InitMessage)
  }

  /** Different class names give different error names, so the name tells
      which singleton was used too early. */
  lemma NameIsInjective(a: string, b: string)
    requires a != b
    ensures ClassNotInitializedError(a).name != ClassNotInitializedError(b).name
  {
    var na, nb := ClassNotInitializedError(a).name, ClassNotInitializedError(b).name;
    if |a| == |b| {
      assert na[..|a|] == a != b == nb[..|a|];
    } else {
      assert |na| != |nb|;
    }
  }
}
