/** The part of Java reflection that the typed queries use: a class is the set of its declared
    fields with their types and the values its no-arg constructor leaves in them, and an
    instance is a map from field name to value. */
module Reflection {
  import opened Wrappers
  import opened Jdbc

  /** The declared type of a field, as far as `Field.set` checks it. */
  datatype FieldType = ObjectField | StringField | IntField | BoolField

  /** `init` holds what the no-arg constructor, field initialisers included, leaves in each
      field; `instantiable` is whether `newInstance()` can run it. */
  datatype JClass = JClass(fields: map<string, FieldType>, init: map<string, Object>, instantiable: bool) {
    /** Field names are Java identifiers, so none is empty; the constructor gives every
        declared field a value of its type. */
    predicate Valid() {
      "" !in fields && init.Keys == fields.Keys &&
      forall f :: f in fields ==> Accepts(fields[f], init[f])
    }
  }

  /** The value the JVM gives a field of type `t` that nothing initialises. */
  function Default(t: FieldType): Object {
    match t
    case IntField => Ref(IntValue(0))
    case BoolField => Ref(BoolValue(false))
    case _ => Null
  }

  /** Whether `Field.set` takes `x` for a field of type `t` (primitives refuse null). */
  predicate Accepts(t: FieldType, x: Object) {
    match t
    case ObjectField => true
    case StringField => x.Null? || x.value.StringValue?
    case IntField => x.Ref? && x.value.IntValue?
    case BoolField => x.Ref? && x.value.BoolValue?
  }

  /** A class with no field initialisers and an empty constructor: every field starts at its
      default. */
  function PlainClass(fields: map<string, FieldType>, instantiable: bool): (cls: JClass)
    ensures cls.Valid() <==> "" !in fields
    ensures cls.init.Keys == fields.Keys
  {
    JClass(fields, map f | f in fields :: Default(fields[f]), instantiable)
  }

  /** `cls.getDeclaredField(name)` followed by `field.set(obj, x)`. */
  function SetField(cls: JClass, obj: map<string, Object>, name: string, x: Object): Result<map<string, Object>, Error>
  {
    if name !in cls.fields then Err(NoSuchField(name))
    else if !Accepts(cls.fields[name], x) then Err(IllegalArgument(name))
    else Ok(obj[name := x])
  }

  /** The lookup throws for an undeclared name (always for `""`), the assignment for a value
      the field's type refuses; otherwise field `name` holds `x` and no other field changes. */
  lemma SetFieldMeaning(cls: JClass, obj: map<string, Object>, name: string, x: Object)
    ensures SetField(cls, obj, name, x).Ok? <==> name in cls.fields && Accepts(cls.fields[name], x)
    ensures name !in cls.fields ==> SetField(cls, obj, name, x) == Err(NoSuchField(name))
    ensures cls.Valid() && name == "" ==> SetField(cls, obj, name, x) == Err(NoSuchField(""))
    ensures name in cls.fields && !Accepts(cls.fields[name], x) ==>
      SetField(cls, obj, name, x) == Err(IllegalArgument(name))
    ensures SetField(cls, obj, name, x).Ok? ==>
      var o := SetField(cls, obj, name, x).value;
      o.Keys == obj.Keys + {name} && o[name] == x &&
      forall f :: f in obj && f != name ==> o[f] == obj[f]
  {
  }

  class Instance {
    const cls: JClass
    var fields: map<string, Object>

    constructor (cls: JClass)
      ensures this.cls == cls && fields == cls.init
    {
      this.cls := cls;
      fields := cls.init;
    }
  }

  /** `cls.newInstance()`: runs the no-arg constructor. */
  method NewInstance(cls: JClass) returns (r: Result<Instance, Error>)
    ensures !cls.instantiable ==> r == Err(Instantiation)
    ensures cls.instantiable ==> r.Ok? && fresh(r.value) && r.value.cls == cls && r.value.fields == cls.init
  {
    if !cls.instantiable {
      return Err(Instantiation);
    }
    var obj := new Instance(cls);
    return Ok(obj);
  }
}
