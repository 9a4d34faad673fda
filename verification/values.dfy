/** The values a stored user document can hold, as the database driver hands
    them to JavaScript, and JavaScript's truthiness on them. */
module Values {

  /** One field value of a user document. `Composite` is any non-primitive
      value: an ObjectId, a Date, an array or an embedded document. */
  datatype Value =
    | Null
    | Bool(b: bool)
    | Num(n: int)
    | Str(s: string)
    | Composite

  /** ToBoolean: `null`, `false`, `0` and `""` are falsy; every object is truthy. */
  predicate Truthy(v: Value)
  {
    match v
    case Null => false
    case Bool(b) => b
    case Num(n) => n != 0
    case Str(s) => s != ""
    case Composite => true
  }

}
