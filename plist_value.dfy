/**
 * The values the backup reader manipulates: what the binary-plist codec hands
 * back (scalars, dictionaries, arrays and keyed-archive UIDs), Python's `dict`
 * and `list` operations on them, Python truthiness and Python `==` against a
 * primitive literal.  A Python dictionary is an association list whose keys
 * are unique when it is built through `Assign`, as Python builds it.
 */
module PlistValue {

  newtype byte = x: int | 0 <= x < 256

  datatype Option<+T> = None | Some(value: T) {
    predicate IsFailure() { None? }

    function PropagateFailure<U>(): Option<U>
      requires None?
    {
      None
    }

    function Extract(): T
      requires Some?
    {
      value
    }
  }

  /** A decoded plist / keyed-archive value. `Uid` is ccl_bplist's BplistUID. */
  datatype Value =
    | Null
    | Bool(b: bool)
    | Int(i: int)
    | Real(r: real)
    | Str(s: string)
    | Data(bytes: seq<byte>)
    | Date(seconds: real)
    | Uid(index: nat)
    | Dict(entries: seq<(string, Value)>)
    | Array(items: seq<Value>)

  type Entries = seq<(string, Value)>

  predicate IsContainer(v: Value) {
    v.Dict? || v.Array?
  }

  /** The values Python compares with `==` as plain data: None, numbers, text, bytes. */
  predicate IsPrimitive(v: Value) {
    v.Null? || v.Bool? || v.Int? || v.Real? || v.Str? || v.Data?
  }

  /** Python's `bool(v)`. */
  predicate Truthy(v: Value) {
    match v
    case Null => false
    case Bool(b) => b
    case Int(i) => i != 0
    case Real(r) => r != 0.0
    case Str(s) => s != ""
    case Data(b) => b != []
    case Date(_) => true
    case Uid(_) => true
    case Dict(es) => es != []
    case Array(xs) => xs != []
  }

  /** The numeric value of a Python bool, int or float. */
  function Numeric(v: Value): Option<real> {
    match v
    case Bool(b) => Some(if b then 1.0 else 0.0)
    case Int(i) => Some(i as real)
    case Real(r) => Some(r)
    case _ => None
  }

  /**
   * Python's `a == lit` for a primitive literal: bool, int and float compare
   * by numeric value, text with text, bytes with bytes, None with None; any
   * other pairing (a datetime, a UID, a container) is unequal.
   */
  predicate PyEquals(a: Value, lit: Value)
    requires IsPrimitive(lit)
  {
    if Numeric(a).Some? && Numeric(lit).Some? then Numeric(a).value == Numeric(lit).value
    else match (a, lit)
      case (Null, Null) => true
      case (Str(x), Str(y)) => x == y
      case (Data(x), Data(y)) => x == y
      case _ => false
  }

  function Keys(es: Entries): (ks: seq<string>)
    ensures |ks| == |es|
    ensures forall i :: 0 <= i < |es| ==> ks[i] == es[i].0
  {
    if es == [] then [] else [es[0].0] + Keys(es[1..])
  }

  /** `k in d` */
  predicate HasKey(es: Entries, k: string) {
    k in Keys(es)
  }

  predicate UniqueKeys(es: Entries) {
    forall i, j :: 0 <= i < j < |es| ==> es[i].0 != es[j].0
  }

  /** `d[k]` when the key is present (the first binding of the list) */
  function GetEntry(es: Entries, k: string): (r: Option<Value>)
    ensures r.Some? <==> HasKey(es, k)
  {
    if es == [] then None
    else if es[0].0 == k then Some(es[0].1)
    else
      assert Keys(es) == [es[0].0] + Keys(es[1..]);
      GetEntry(es[1..], k)
  }

  /** `d.get(k, default)` */
  function Get(es: Entries, k: string, default: Value): Value {
    match GetEntry(es, k)
    case Some(v) => v
    case None => default
  }

  /** `d[k] = v`: rebinds an existing key in place, or adds the key at the end. */
  function Assign(es: Entries, k: string, v: Value): (r: Entries)
    ensures Keys(r) == if HasKey(es, k) then Keys(es) else Keys(es) + [k]
  {
    if es == [] then [(k, v)]
    else if es[0].0 == k then [(k, v)] + es[1..]
    else
      assert Keys(es) == [es[0].0] + Keys(es[1..]);
      var rest := Assign(es[1..], k, v);
      assert Keys([es[0]] + rest) == [es[0].0] + Keys(rest);
      [es[0]] + rest
  }

  /** After `d[k] = v`, `d[k]` is `v` and every other key keeps its value. */
  lemma {:induction false} AssignGet(es: Entries, k: string, v: Value, k': string)
    ensures GetEntry(Assign(es, k, v), k') == if k' == k then Some(v) else GetEntry(es, k')
  {
    if es != [] && es[0].0 != k {
      AssignGet(es[1..], k, v, k');
    }
  }

  /** Rebinding a key that is present keeps the keys; only that key's value changes. */
  lemma AssignPresent(es: Entries, k: string, v: Value)
    requires HasKey(es, k)
    ensures Keys(Assign(es, k, v)) == Keys(es)
    ensures forall k' :: GetEntry(Assign(es, k, v), k') == if k' == k then Some(v) else GetEntry(es, k')
  {
    forall k' ensures GetEntry(Assign(es, k, v), k') == if k' == k then Some(v) else GetEntry(es, k') {
      AssignGet(es, k, v, k');
    }
  }

  /** Assigns the pairs `ps` one after another, in order, into `acc`. */
  function PutAll(acc: Entries, ps: Entries): Entries
    decreases |ps|
  {
    if ps == [] then acc else Assign(PutAll(acc, ps[..|ps| - 1]), ps[|ps| - 1].0, ps[|ps| - 1].1)
  }

  /** Every pair of `d` after `d[k] = v` was already there, or is the new binding. */
  lemma {:induction false} AssignMembers(es: Entries, k: string, v: Value)
    ensures forall e :: e in Assign(es, k, v) ==> e in es || e == (k, v)
  {
    if es != [] && es[0].0 != k {
      AssignMembers(es[1..], k, v);
    }
  }

  /** Every pair of `PutAll(acc, ps)` comes from `acc` or from `ps`. */
  lemma {:induction false} PutAllMembers(acc: Entries, ps: Entries)
    ensures forall e :: e in PutAll(acc, ps) ==> e in acc || e in ps
    decreases |ps|
  {
    if ps != [] {
      var init, last := ps[..|ps| - 1], ps[|ps| - 1];
      PutAllMembers(acc, init);
      AssignMembers(PutAll(acc, init), last.0, last.1);
      assert forall e :: e in init ==> e in ps;
    }
  }

  /** The keys of `ks` that are not in `drop`, in their order. */
  function Omit(ks: seq<string>, drop: seq<string>): (r: seq<string>)
    ensures forall x :: x in r <==> x in ks && x !in drop
    ensures |r| <= |ks|
  {
    if ks == [] then [] else (if ks[0] in drop then [] else [ks[0]]) + Omit(ks[1..], drop)
  }

  /** Omitting nothing, or a key that is not there, changes nothing. */
  lemma {:induction false} OmitAbsent(ks: seq<string>, k: string)
    ensures Omit(ks, []) == ks
    ensures k !in ks ==> Omit(ks, [k]) == ks
  {
    if ks != [] {
      OmitAbsent(ks[1..], k);
      assert ks == [ks[0]] + ks[1..];
    }
  }

  /** Omitting the keys of `drop` and then `k` omits the keys of `drop + [k]`. */
  lemma {:induction false} OmitThen(ks: seq<string>, drop: seq<string>, k: string)
    ensures Omit(Omit(ks, drop), [k]) == Omit(ks, drop + [k])
  {
    if ks != [] {
      OmitThen(ks[1..], drop, k);
      var head := if ks[0] in drop then [] else [ks[0]];
      var rest := Omit(ks[1..], drop);
      assert Omit(ks, drop) == head + rest;
      if head == [] {
        assert Omit(ks, drop) == rest;
      } else {
        assert (head + rest)[0] == ks[0] && (head + rest)[1..] == rest;
      }
    }
  }

  /** `d.pop(k)` removes the key and keeps the other keys in their order. */
  function RemoveKey(es: Entries, k: string): (r: Entries)
    ensures !HasKey(r, k)
    ensures forall k' :: k' != k ==> GetEntry(r, k') == GetEntry(es, k')
    ensures Keys(r) == Omit(Keys(es), [k])
    ensures |r| <= |es|
  {
    if es == [] then []
    else
      assert Keys(es)[1..] == Keys(es[1..]);
      if es[0].0 == k then RemoveKey(es[1..], k)
      else
        var rest := RemoveKey(es[1..], k);
        assert Keys([es[0]] + rest) == [es[0].0] + Keys(rest);
        [es[0]] + rest
  }

  /** Filling an empty dictionary from pairs with distinct keys keeps every pair, in order. */
  lemma {:induction false} PutAllDistinct(ps: Entries)
    requires UniqueKeys(ps)
    ensures PutAll([], ps) == ps
  {
    if ps != [] {
      var init, last := ps[..|ps| - 1], ps[|ps| - 1];
      UniqueKeysInit(ps);
      PutAllDistinct(init);
      AssignFresh(init, last.0, last.1);
      assert init + [last] == ps;
    }
  }

  /** Dropping the last pair keeps the keys distinct, and the last key is not among the others. */
  lemma UniqueKeysInit(ps: Entries)
    requires ps != [] && UniqueKeys(ps)
    ensures UniqueKeys(ps[..|ps| - 1])
    ensures !HasKey(ps[..|ps| - 1], ps[|ps| - 1].0)
  {
    var init := ps[..|ps| - 1];
    forall i, j | 0 <= i < j < |init| ensures init[i].0 != init[j].0 {
      assert init[i] == ps[i] && init[j] == ps[j];
    }
    var ks := Keys(init);
    forall i | 0 <= i < |ks| ensures ks[i] != ps[|ps| - 1].0 {
      assert ks[i] == ps[i].0;
    }
  }

  /** Assigning a key that is not yet bound appends the pair. */
  lemma {:induction false} AssignFresh(es: Entries, k: string, v: Value)
    requires !HasKey(es, k)
    ensures Assign(es, k, v) == es + [(k, v)]
  {
    if es != [] {
      assert Keys(es) == [es[0].0] + Keys(es[1..]);
      assert es[0].0 != k && !HasKey(es[1..], k);
      AssignFresh(es[1..], k, v);
      assert Assign(es, k, v) == [es[0]] + Assign(es[1..], k, v);
      assert [es[0]] + (es[1..] + [(k, v)]) == es + [(k, v)];
    }
  }

  /** A Python dict or list object that the code fills or empties in place. */
  class Container {
    var contents: Value

    constructor EmptyDict()
      ensures contents == Dict([])
    {
      contents := Dict([]);
    }

    constructor EmptyList()
      ensures contents == Array([])
    {
      contents := Array([]);
    }

    /** The object holding `v`, as when a dict read from a plist is handed on. */
    constructor Holding(v: Value)
      ensures contents == v
    {
      contents := v;
    }

    /** `key in d` */
    function Contains(key: string): bool
      reads this
      requires contents.Dict?
    {
      HasKey(contents.entries, key)
    }

    /** `d[key] = v` */
    method SetItem(key: string, v: Value)
      requires contents.Dict?
      modifies this
      ensures contents == Dict(Assign(old(contents).entries, key, v))
    {
      contents := Dict(Assign(contents.entries, key, v));
    }

    /** `l.append(v)` */
    method Append(v: Value)
      requires contents.Array?
      modifies this
      ensures contents == Array(old(contents).items + [v])
    {
      contents := Array(contents.items + [v]);
    }

    /** `d.pop(key)`; Python raises KeyError for a key that is not there. */
    method Pop(key: string) returns (v: Value)
      requires contents.Dict? && HasKey(contents.entries, key)
      modifies this
      ensures Some(v) == GetEntry(old(contents).entries, key)
      ensures contents == Dict(RemoveKey(old(contents).entries, key))
    {
      v := GetEntry(contents.entries, key).value;
      contents := Dict(RemoveKey(contents.entries, key));
    }
  }
}
