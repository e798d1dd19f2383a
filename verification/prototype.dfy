/**
 An abstract model of the prototype behaviour the script demonstrates with
 `Object.prototype`: an ordinary object holds its own properties and inherits
 from one shared prototype; a property read falls back to the prototype when
 the object has no own property of that name; `Object.seal` on the prototype
 stops new properties from being added to it while existing ones stay
 writable. Only one level of inheritance is modelled, and the prototype's
 built-in properties are left to the initial map the caller supplies.
 */
module Prototype {

  type Key = string

  /** The property values the script stores: numbers and strings. */
  datatype Value = Num(n: int) | Str(s: string)

  /** The outcome of a property read: a value, or JavaScript's `undefined`. */
  datatype Lookup = Undefined | Found(value: Value)

  /** The shared prototype: its own properties and whether it has been sealed. */
  datatype Proto = Proto(props: map<Key, Value>, sealed: bool)

  /** An ordinary object; it inherits from whichever prototype it is read against. */
  datatype Obj = Obj(own: map<Key, Value>)

  /** `o.hasOwnProperty(key)`. */
  predicate HasOwnProperty(o: Obj, key: Key) {
    key in o.own
  }

  /** The property read `o[key]`: the own value if there is one, else the prototype's. */
  function Get(o: Obj, p: Proto, key: Key): (r: Lookup)
    ensures r.Found? <==> HasOwnProperty(o, key) || key in p.props
    ensures HasOwnProperty(o, key) ==> r == Found(o.own[key])
    ensures !HasOwnProperty(o, key) ==> r == if key in p.props then Found(p.props[key]) else Undefined
  {
    if key in o.own then Found(o.own[key])
    else if key in p.props then Found(p.props[key])
    else Undefined
  }

  /** `Object.seal(proto)`: no property is added from now on; values are untouched. */
  function Seal(p: Proto): (r: Proto)
    ensures r.sealed
    ensures r.props == p.props
  {
    p.(sealed := true)
  }

  /**
   The assignment `proto[key] = v` outside strict mode. A sealed prototype is
   not extensible, so assigning a key it lacks is silently ignored; assigning a
   key it has updates the value, since sealing leaves properties writable.
   */
  function Put(p: Proto, key: Key, v: Value): (r: Proto)
    ensures r.sealed == p.sealed
    ensures (key in r.props && r.props[key] == v) <==> (!p.sealed || key in p.props)
    ensures p.sealed && key !in p.props ==> r == p
    ensures forall k :: k in p.props && k != key ==> k in r.props && r.props[k] == p.props[k]
    ensures r.props.Keys <= p.props.Keys + {key}
    ensures p.sealed ==> r.props.Keys == p.props.Keys
  {
    if p.sealed && key !in p.props then p
    else p.(props := p.props[key := v])
  }

  /** The statements of the script that act on the shared prototype. */
  datatype Stmt = Assign(key: Key, value: Value) | SealProto

  /** A realm: the shared prototype and the named objects that inherit from it. */
  datatype Realm = Realm(proto: Proto, objects: map<string, Obj>)

  /** Executes one statement against the realm. */
  function Exec(r: Realm, st: Stmt): (r': Realm)
    ensures r'.objects == r.objects
    ensures st.SealProto? ==> r'.proto.sealed && r'.proto.props == r.proto.props
    ensures st.Assign? ==> r'.proto == Put(r.proto, st.key, st.value)
    ensures r.proto.sealed ==> r'.proto.sealed && r'.proto.props.Keys == r.proto.props.Keys
  {
    match st
    case Assign(key, value) => r.(proto := Put(r.proto, key, value))
    case SealProto => r.(proto := Seal(r.proto))
  }

  /** Executes a script of statements in order. */
  function Run(r: Realm, script: seq<Stmt>): Realm
    decreases |script|
  {
    if |script| == 0 then r
    else Run(Exec(r, script[0]), script[1..])
  }

  /**
   No statement on the prototype adds, removes or changes an own property of
   any object: every `hasOwnProperty` answer is the same after the script as
   before it.
   */
  lemma {:induction false} RunKeepsOwnProperties(r: Realm, script: seq<Stmt>, name: string, key: Key)
    requires name in r.objects
    ensures name in Run(r, script).objects
    ensures Run(r, script).objects[name].own == r.objects[name].own
    ensures HasOwnProperty(Run(r, script).objects[name], key) == HasOwnProperty(r.objects[name], key)
    decreases |script|
  {
    if |script| > 0 {
      RunKeepsOwnProperties(Exec(r, script[0]), script[1..], name, key);
    }
  }

  /**
   Sealing is permanent and freezes the prototype's set of keys: whatever a
   later script assigns, the prototype stays sealed and gains no property.
   */
  lemma {:induction false} SealedKeysFixed(r: Realm, script: seq<Stmt>)
    requires r.proto.sealed
    ensures Run(r, script).proto.sealed
    ensures Run(r, script).proto.props.Keys == r.proto.props.Keys
    decreases |script|
  {
    if |script| > 0 {
      SealedKeysFixed(Exec(r, script[0]), script[1..]);
    }
  }

  /**
   Reads through an object see prototype assignments exactly when the object
   does not shadow the key: after `proto[key] = v` takes effect, a read of
   `key` on an object without that own property yields `v`, and a read on an
   object with it is unchanged.
   */
  lemma GetAfterPut(o: Obj, p: Proto, key: Key, v: Value)
    ensures !HasOwnProperty(o, key) && (!p.sealed || key in p.props) ==> Get(o, Put(p, key, v), key) == Found(v)
    ensures !HasOwnProperty(o, key) && p.sealed && key !in p.props ==> Get(o, Put(p, key, v), key) == Undefined
    ensures HasOwnProperty(o, key) ==> Get(o, Put(p, key, v), key) == Get(o, p, key)
  {
  }

  /**
   The detection sequence of the script: `{ a: 1, b: 2 }` inherits from a
   prototype without `foo`; `foo` is set to `'bar'`, the prototype is sealed,
   and `foo` is set to `'baz'`. The object then has no own `foo`, its own keys
   are still `a` and `b`, and reading `foo` through it yields `'baz'`. A later
   assignment of `'bar'` still takes effect on the sealed prototype.
   */
  lemma PollutedThenSealed(r: Realm)
    requires r.objects == map["myEnumerableObject" := Obj(map["a" := Num(1), "b" := Num(2)])]
    requires r.proto == Proto(map[], false)
    ensures var r1 := Run(r, [Assign("foo", Str("bar")), SealProto, Assign("foo", Str("baz"))]);
      && "myEnumerableObject" in r1.objects
      && !HasOwnProperty(r1.objects["myEnumerableObject"], "foo")
      && r1.objects["myEnumerableObject"].own.Keys == {"a", "b"}
      && Get(r1.objects["myEnumerableObject"], r1.proto, "foo") == Found(Str("baz"))
      && Get(r1.objects["myEnumerableObject"], Put(r1.proto, "foo", Str("bar")), "foo") == Found(Str("bar"))
  {
    var s := [Assign("foo", Str("bar")), SealProto, Assign("foo", Str("baz"))];
    assert s[1..] == [SealProto, Assign("foo", Str("baz"))];
    assert s[1..][1..] == [Assign("foo", Str("baz"))];
    assert s[1..][1..][1..] == [];
  }

  /**
   The alternative the script's comments describe: sealing the prototype
   before the pollution means `foo` is never set, so reading it yields
   `undefined`.
   */
  lemma SealedThenPolluted(r: Realm)
    requires r.objects == map["myEnumerableObject" := Obj(map["a" := Num(1), "b" := Num(2)])]
    requires r.proto == Proto(map[], false)
    ensures var r1 := Run(r, [SealProto, Assign("foo", Str("bar"))]);
      && r1.proto.props == map[]
      && Get(r1.objects["myEnumerableObject"], r1.proto, "foo") == Undefined
  {
    var s := [SealProto, Assign("foo", Str("bar"))];
    assert s[1..] == [Assign("foo", Str("bar"))];
    assert s[1..][1..] == [];
  }
}
