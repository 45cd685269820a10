/**
 * The NSKeyedArchiver object-graph resolver of helpers/deserializer.py.
 *
 * A keyed archive is an object table whose containers refer to each other
 * through UIDs. `recurseCreatePlist` copies a container skeleton into a
 * fresh Python dict or list, dropping the `$class` key and replacing each
 * UID by the codec's conversion of the object it names; it descends into
 * that object only when it is a dict or a list. `process_nsa_plist`
 * resolves each `$top` root and assembles the per-root results.
 *
 * The codec (`NSKeyedArchiver_convert`) is a parameter that may raise. The source recurses
 * without bound; here `depth` bounds the number of UID hops into containers,
 * standing in for Python's recursion limit, whose RecursionError is caught
 * like any other exception.
 */
module Deserializer {
  import opened PlistValue

  const ClassKey := "$class"

  /** `NSKeyedArchiver_convert(obj, object_table)`; `None` when the conversion raises. */
  type Converter = (Value, seq<Value>) -> Option<Value>

  /**
   * The exceptions resolution can raise: IndexError on the table, an
   * exception of the converter, or the recursion limit.
   */
  datatype ResolveError = UidOutOfRange(uid: nat) | ConvertFailed(uid: nat) | DepthExhausted

  datatype Resolved<+T> = Ok(value: T) | Err(error: ResolveError)

  /**
   * A decoded keyed archive: the `$top` root names in order, each with the
   * object the archive holds under it, and the object table.
   */
  datatype Archive = Archive(roots: seq<(string, Value)>, objects: seq<Value>)

  // ---------------------------------------------------------------------
  // Resolution as functions: the specification of recurseCreatePlist
  // ---------------------------------------------------------------------

  /** The value recurseCreatePlist stores for one member `v` of a skeleton. */
  function ResolveMember(v: Value, table: seq<Value>, convert: Converter, depth: nat): Resolved<Value>
    decreases depth, v, 1
  {
    match v
    case Uid(i) =>
      if i >= |table| then Err(UidOutOfRange(i))
      else
        var converted := convert(table[i], table);
        if converted.None? then Err(ConvertFailed(i))
        else if !IsContainer(converted.value) then Ok(converted.value)
        else if depth == 0 then Err(DepthExhausted)
        else ResolveContainer(converted.value, table, convert, depth - 1)
    case Dict(_) => ResolveContainer(v, table, convert, depth)
    case Array(_) => ResolveContainer(v, table, convert, depth)
    case _ => Ok(v)
  }

  /** What recurseCreatePlist leaves in a fresh dict or list of the root's kind. */
  function ResolveContainer(root: Value, table: seq<Value>, convert: Converter, depth: nat): Resolved<Value>
    requires IsContainer(root)
    decreases depth, root, 0
  {
    if root.Dict? then
      match ResolveEntries(root.entries, table, convert, depth)
      case Ok(ps) => Ok(Dict(PutAll([], ps)))
      case Err(e) => Err(e)
    else
      match ResolveItems(root.items, table, convert, depth)
      case Ok(xs) => Ok(Array(xs))
      case Err(e) => Err(e)
  }

  /** The (key, resolved value) pairs a dict skeleton yields, in order, `$class` left out. */
  function ResolveEntries(es: Entries, table: seq<Value>, convert: Converter, depth: nat): Resolved<Entries>
    decreases depth, es, 0
  {
    if es == [] then Ok([])
    else
      var last := es[|es| - 1];
      assert last.1 < last;
      match ResolveEntries(es[..|es| - 1], table, convert, depth)
      case Err(e) => Err(e)
      case Ok(init) =>
        if last.0 == ClassKey then Ok(init)
        else
          match ResolveMember(last.1, table, convert, depth)
          case Err(e) => Err(e)
          case Ok(r) => Ok(init + [(last.0, r)])
  }

  /** The resolved elements of a list skeleton, in order. */
  function ResolveItems(xs: seq<Value>, table: seq<Value>, convert: Converter, depth: nat): Resolved<seq<Value>>
    decreases depth, xs, 0
  {
    if xs == [] then Ok([])
    else
      match ResolveItems(xs[..|xs| - 1], table, convert, depth)
      case Err(e) => Err(e)
      case Ok(init) =>
        match ResolveMember(xs[|xs| - 1], table, convert, depth)
        case Err(e) => Err(e)
        case Ok(r) => Ok(init + [r])
  }

  // ---------------------------------------------------------------------
  // recurseCreatePlist, filling a caller-supplied container in place
  // ---------------------------------------------------------------------

  /**
   * recurseCreatePlist(plist, root, object_table): copies the members of the
   * dict or list skeleton `root` into `plist`, which is a dict exactly when
   * `root` is. `ok` is false when an exception escaped; the
   * contract then says nothing of `plist`, which every caller drops as the
   * exception passes through it.
   */
  method RecurseCreatePlist(plist: Container, root: Value, table: seq<Value>, convert: Converter, depth: nat)
    returns (ok: bool)
    requires IsContainer(root) && IsContainer(plist.contents)
    requires plist.contents.Dict? == root.Dict?
    modifies plist
    ensures root.Dict? ==> ok == ResolveEntries(root.entries, table, convert, depth).Ok?
    ensures root.Dict? && ok ==>
      plist.contents == Dict(PutAll(old(plist.contents).entries, ResolveEntries(root.entries, table, convert, depth).value))
    ensures root.Array? ==> ok == ResolveItems(root.items, table, convert, depth).Ok?
    ensures root.Array? && ok ==>
      plist.contents == Array(old(plist.contents).items + ResolveItems(root.items, table, convert, depth).value)
    decreases depth, root, 0
  {
    if root.Dict? {
      var es := root.entries;
      var i := 0;
      while i < |es|
        invariant 0 <= i <= |es|
        invariant ResolveEntries(es[..i], table, convert, depth).Ok?
        invariant plist.contents ==
          Dict(PutAll(old(plist.contents).entries, ResolveEntries(es[..i], table, convert, depth).value))
      {
        var key, value := es[i].0, es[i].1;
        assert es[..i + 1][..i] == es[..i] && es[..i + 1][i] == es[i];
        assert value < es[i];
        if key != ClassKey {
          var good, v := ResolveMemberValue(value, table, convert, depth);
          if !good {
            EntriesErrPersists(es, i + 1, table, convert, depth);
            return false;
          }
          plist.SetItem(key, v);
        }
        i := i + 1;
      }
      assert es[..i] == es;
      ok := true;
    } else {
      var xs := root.items;
      var i := 0;
      while i < |xs|
        invariant 0 <= i <= |xs|
        invariant ResolveItems(xs[..i], table, convert, depth).Ok?
        invariant plist.contents ==
          Array(old(plist.contents).items + ResolveItems(xs[..i], table, convert, depth).value)
      {
        var value := xs[i];
        assert xs[..i + 1][..i] == xs[..i] && xs[..i + 1][i] == xs[i];
        var good, v := ResolveMemberValue(value, table, convert, depth);
        if !good {
          ItemsErrPersists(xs, i + 1, table, convert, depth);
          return false;
        }
        plist.Append(v);
        i := i + 1;
      }
      assert xs[..i] == xs;
      ok := true;
    }
  }

  /**
   * The branch of recurseCreatePlist that computes `v` for one member
   * (lines 46-64 and 68-86): a UID is converted and, when it converts to a dict
   * or a list, copied into a fresh container; a dict or list member is copied
   * into a fresh container; anything else is kept.
   */
  method ResolveMemberValue(value: Value, table: seq<Value>, convert: Converter, depth: nat)
    returns (ok: bool, v: Value)
    ensures ok == ResolveMember(value, table, convert, depth).Ok?
    ensures ok ==> v == ResolveMember(value, table, convert, depth).value
    decreases depth, value, 1
  {
    if value.Uid? {
      var i := value.index;
      if i >= |table| {
        return false, Null;
      }
      var converted := convert(table[i], table);
      if converted.None? {
        return false, Null;
      }
      var target := converted.value;
      if !IsContainer(target) {
        return true, target;
      }
      if depth == 0 {
        return false, Null;
      }
      assert ResolveMember(value, table, convert, depth) == ResolveContainer(target, table, convert, depth - 1);
      var c: Container;
      if target.Dict? {
        c := new Container.EmptyDict();
      } else {
        c := new Container.EmptyList();
      }
      ok := RecurseCreatePlist(c, target, table, convert, depth - 1);
      v := c.contents;
    } else if value.Array? {
      var c := new Container.EmptyList();
      ok := RecurseCreatePlist(c, value, table, convert, depth);
      v := c.contents;
    } else if value.Dict? {
      var c := new Container.EmptyDict();
      ok := RecurseCreatePlist(c, value, table, convert, depth);
      v := c.contents;
    } else {
      ok, v := true, value;
    }
  }

  /** Once a prefix of a dict skeleton raises, the whole dict raises. */
  lemma {:induction false} EntriesErrPersists(es: Entries, k: nat, table: seq<Value>, convert: Converter, depth: nat)
    requires k <= |es|
    requires ResolveEntries(es[..k], table, convert, depth).Err?
    ensures ResolveEntries(es, table, convert, depth).Err?
    decreases |es| - k
  {
    if k < |es| {
      assert es[..k + 1][..k] == es[..k];
      EntriesErrPersists(es, k + 1, table, convert, depth);
    } else {
      assert es[..k] == es;
    }
  }

  /** Once a prefix of a list skeleton raises, the whole list raises. */
  lemma {:induction false} ItemsErrPersists(xs: seq<Value>, k: nat, table: seq<Value>, convert: Converter, depth: nat)
    requires k <= |xs|
    requires ResolveItems(xs[..k], table, convert, depth).Err?
    ensures ResolveItems(xs, table, convert, depth).Err?
    decreases |xs| - k
  {
    if k < |xs| {
      assert xs[..k + 1][..k] == xs[..k];
      ItemsErrPersists(xs, k + 1, table, convert, depth);
    } else {
      assert xs[..k] == xs;
    }
  }

  // ---------------------------------------------------------------------
  // Properties of resolution
  // ---------------------------------------------------------------------

  /** The members of a dict skeleton that resolution keeps: every pair but `$class`, in order. */
  function Members(es: Entries): (ms: Entries)
    ensures forall e :: e in ms ==> e in es && e.0 != ClassKey
    decreases |es|
  {
    if es == [] then []
    else
      var init, last := es[..|es| - 1], es[|es| - 1];
      Members(init) + (if last.0 == ClassKey then [] else [last])
  }

  /** A key survives resolution exactly when it is in the skeleton and is not `$class`. */
  lemma {:induction false} MembersKeys(es: Entries, k: string)
    ensures HasKey(Members(es), k) <==> HasKey(es, k) && k != ClassKey
    decreases |es|
  {
    if es != [] {
      var init, last := es[..|es| - 1], es[|es| - 1];
      MembersKeys(init, k);
      assert es == init + [last];
      KeysAppend(init, [last]);
      KeysAppend(Members(init), if last.0 == ClassKey then [] else [last]);
    }
  }

  lemma KeysAppend(a: Entries, b: Entries)
    ensures Keys(a + b) == Keys(a) + Keys(b)
  {
  }

  /** Dropping `$class` keeps the keys of a Python dict distinct. */
  lemma {:induction false} MembersUnique(es: Entries)
    requires UniqueKeys(es)
    ensures UniqueKeys(Members(es))
    decreases |es|
  {
    if es != [] {
      var init, last := es[..|es| - 1], es[|es| - 1];
      assert UniqueKeys(init) by {
        forall i, j | 0 <= i < j < |init| ensures init[i].0 != init[j].0 {
          assert init[i] == es[i] && init[j] == es[j];
        }
      }
      MembersUnique(init);
      if last.0 != ClassKey {
        var ms := Members(init);
        forall i | 0 <= i < |ms| ensures ms[i].0 != last.0 {
          var m := ms[i];
          assert m in init;
          var j :| 0 <= j < |init| && init[j] == m;
          assert es[j] == m;
        }
      }
    }
  }

  /**
   * Resolving a list skeleton succeeds exactly when every element resolves,
   * and then yields one value per element, element i from input element i.
   */
  lemma {:induction false} ResolveItemsPointwise(xs: seq<Value>, table: seq<Value>, convert: Converter, depth: nat)
    ensures ResolveItems(xs, table, convert, depth).Ok? <==>
      forall i :: 0 <= i < |xs| ==> ResolveMember(xs[i], table, convert, depth).Ok?
    ensures ResolveItems(xs, table, convert, depth).Ok? ==>
      var ys := ResolveItems(xs, table, convert, depth).value;
      |ys| == |xs| && forall i :: 0 <= i < |xs| ==> ResolveMember(xs[i], table, convert, depth) == Ok(ys[i])
    decreases |xs|
  {
    if xs != [] {
      var init := xs[..|xs| - 1];
      ResolveItemsPointwise(init, table, convert, depth);
      assert forall i :: 0 <= i < |init| ==> init[i] == xs[i];
    }
  }

  /**
   * Resolving a dict skeleton succeeds exactly when every member other than
   * `$class` resolves, and then yields, in input order, each such key with
   * the resolution of its value.
   */
  lemma {:induction false} ResolveEntriesPointwise(es: Entries, table: seq<Value>, convert: Converter, depth: nat)
    ensures ResolveEntries(es, table, convert, depth).Ok? <==>
      forall j :: 0 <= j < |Members(es)| ==> ResolveMember(Members(es)[j].1, table, convert, depth).Ok?
    ensures ResolveEntries(es, table, convert, depth).Ok? ==>
      var ps, ms := ResolveEntries(es, table, convert, depth).value, Members(es);
      && |ps| == |ms|
      && forall j :: 0 <= j < |ms| ==> ps[j].0 == ms[j].0 && ResolveMember(ms[j].1, table, convert, depth) == Ok(ps[j].1)
    decreases |es|
  {
    if es != [] {
      var init, last := es[..|es| - 1], es[|es| - 1];
      ResolveEntriesPointwise(init, table, convert, depth);
      var mi, ms := Members(init), Members(es);
      assert ms == mi + (if last.0 == ClassKey then [] else [last]);
      assert forall j :: 0 <= j < |mi| ==> mi[j] == ms[j];
      if last.0 != ClassKey {
        assert ms[|mi|] == last;
        assert |ms| == |mi| + 1;
      }
    }
  }

  /**
   * A resolved dict skeleton (a Python dict, so with distinct keys) has
   * exactly the skeleton's keys minus `$class`, in the skeleton's order,
   * each bound to the resolution of its skeleton value.
   */
  lemma ResolvedDictKeys(es: Entries, table: seq<Value>, convert: Converter, depth: nat)
    requires UniqueKeys(es)
    requires ResolveContainer(Dict(es), table, convert, depth).Ok?
    ensures var d := ResolveContainer(Dict(es), table, convert, depth).value;
      && d.Dict?
      && Keys(d.entries) == Keys(Members(es))
      && forall j :: 0 <= j < |d.entries| ==>
           ResolveMember(Members(es)[j].1, table, convert, depth) == Ok(d.entries[j].1)
  {
    var ps := ResolveEntries(es, table, convert, depth).value;
    ResolveEntriesPointwise(es, table, convert, depth);
    MembersUnique(es);
    var ms := Members(es);
    assert Keys(ps) == Keys(ms);
    assert UniqueKeys(ps) by {
      forall i, j | 0 <= i < j < |ps| ensures ps[i].0 != ps[j].0 {
        assert ps[i].0 == ms[i].0 && ps[j].0 == ms[j].0;
      }
    }
    PutAllDistinct(ps);
  }

  /** No dict anywhere in a value has the `$class` key. */
  predicate ClassFree(v: Value)
    decreases v
  {
    match v
    case Dict(es) => forall e | e in es :: e.0 != ClassKey && ClassFree(e.1)
    case Array(xs) => forall x | x in xs :: ClassFree(x)
    case _ => true
  }

  /** Whatever a member resolves to holds no `$class` key at any nesting level. */
  lemma {:induction false} ResolveMemberClassFree(v: Value, table: seq<Value>, convert: Converter, depth: nat)
    requires ResolveMember(v, table, convert, depth).Ok?
    ensures ClassFree(ResolveMember(v, table, convert, depth).value)
    decreases depth, v, 1
  {
    match v
    case Uid(i) =>
      var target := convert(table[i], table).value;
      if IsContainer(target) {
        ResolveContainerClassFree(target, table, convert, depth - 1);
      }
    case Dict(_) => ResolveContainerClassFree(v, table, convert, depth);
    case Array(_) => ResolveContainerClassFree(v, table, convert, depth);
    case _ =>
  }

  lemma {:induction false} ResolveContainerClassFree(root: Value, table: seq<Value>, convert: Converter, depth: nat)
    requires IsContainer(root)
    requires ResolveContainer(root, table, convert, depth).Ok?
    ensures ClassFree(ResolveContainer(root, table, convert, depth).value)
    decreases depth, root, 0
  {
    if root.Dict? {
      var ps := ResolveEntries(root.entries, table, convert, depth).value;
      ResolveEntriesClassFree(root.entries, table, convert, depth);
      PutAllMembers([], ps);
    } else {
      ResolveItemsClassFree(root.items, table, convert, depth);
    }
  }

  lemma {:induction false} ResolveEntriesClassFree(es: Entries, table: seq<Value>, convert: Converter, depth: nat)
    requires ResolveEntries(es, table, convert, depth).Ok?
    ensures forall e | e in ResolveEntries(es, table, convert, depth).value :: e.0 != ClassKey && ClassFree(e.1)
    decreases depth, es, 0
  {
    if es != [] {
      var last := es[|es| - 1];
      assert last.1 < last;
      ResolveEntriesClassFree(es[..|es| - 1], table, convert, depth);
      if last.0 != ClassKey {
        ResolveMemberClassFree(last.1, table, convert, depth);
      }
    }
  }

  lemma {:induction false} ResolveItemsClassFree(xs: seq<Value>, table: seq<Value>, convert: Converter, depth: nat)
    requires ResolveItems(xs, table, convert, depth).Ok?
    ensures forall x | x in ResolveItems(xs, table, convert, depth).value :: ClassFree(x)
    decreases depth, xs, 0
  {
    if xs != [] {
      ResolveItemsClassFree(xs[..|xs| - 1], table, convert, depth);
      ResolveMemberClassFree(xs[|xs| - 1], table, convert, depth);
    }
  }

  /**
   * Enough depth: a resolution that did not stop at the depth bound gives the
   * same outcome (the same value, or the same out-of-range UID) with any
   * larger bound.
   */
  lemma {:induction false} ResolveMemberDepth(v: Value, table: seq<Value>, convert: Converter, depth: nat, more: nat)
    requires depth <= more
    requires ResolveMember(v, table, convert, depth) != Err(DepthExhausted)
    ensures ResolveMember(v, table, convert, more) == ResolveMember(v, table, convert, depth)
    decreases depth, v, 1
  {
    match v
    case Uid(i) =>
      if i < |table| && convert(table[i], table).Some? && IsContainer(convert(table[i], table).value) {
        ResolveContainerDepth(convert(table[i], table).value, table, convert, depth - 1, more - 1);
      }
    case Dict(_) => ResolveContainerDepth(v, table, convert, depth, more);
    case Array(_) => ResolveContainerDepth(v, table, convert, depth, more);
    case _ =>
  }

  lemma {:induction false} ResolveContainerDepth(root: Value, table: seq<Value>, convert: Converter, depth: nat, more: nat)
    requires IsContainer(root) && depth <= more
    requires ResolveContainer(root, table, convert, depth) != Err(DepthExhausted)
    ensures ResolveContainer(root, table, convert, more) == ResolveContainer(root, table, convert, depth)
    decreases depth, root, 0
  {
    if root.Dict? {
      ResolveEntriesDepth(root.entries, table, convert, depth, more);
    } else {
      ResolveItemsDepth(root.items, table, convert, depth, more);
    }
  }

  lemma {:induction false} ResolveEntriesDepth(es: Entries, table: seq<Value>, convert: Converter, depth: nat, more: nat)
    requires depth <= more
    requires ResolveEntries(es, table, convert, depth) != Err(DepthExhausted)
    ensures ResolveEntries(es, table, convert, more) == ResolveEntries(es, table, convert, depth)
    decreases depth, es, 0
  {
    if es != [] {
      var last := es[|es| - 1];
      assert last.1 < last;
      ResolveEntriesDepth(es[..|es| - 1], table, convert, depth, more);
      if ResolveEntries(es[..|es| - 1], table, convert, depth).Ok? && last.0 != ClassKey {
        ResolveMemberDepth(last.1, table, convert, depth, more);
      }
    }
  }

  lemma {:induction false} ResolveItemsDepth(xs: seq<Value>, table: seq<Value>, convert: Converter, depth: nat, more: nat)
    requires depth <= more
    requires ResolveItems(xs, table, convert, depth) != Err(DepthExhausted)
    ensures ResolveItems(xs, table, convert, more) == ResolveItems(xs, table, convert, depth)
    decreases depth, xs, 0
  {
    if xs != [] {
      ResolveItemsDepth(xs[..|xs| - 1], table, convert, depth, more);
      if ResolveItems(xs[..|xs| - 1], table, convert, depth).Ok? {
        ResolveMemberDepth(xs[|xs| - 1], table, convert, depth, more);
      }
    }
  }

  /**
   * One hop only: a UID whose object converts to anything but a dict or a
   * list (another UID included) is stored as that converted value, not
   * followed further, whatever the depth.
   */
  lemma OneHop(i: nat, table: seq<Value>, convert: Converter, depth: nat)
    requires i < |table| && convert(table[i], table).Some? && !IsContainer(convert(table[i], table).value)
    ensures ResolveMember(Uid(i), table, convert, depth) == Ok(convert(table[i], table).value)
  {
  }


  // ---------------------------------------------------------------------
  // Root assembly: process_nsa_plist
  // ---------------------------------------------------------------------

  function LowerAscii(c: char): char {
    if 'A' <= c <= 'Z' then (c as int + 32) as char else c
  }

  /**
   * `name.lower() == 'root'`. Only ASCII letters are folded: the only
   * characters Python lower-cases to `r`, `o` or `t` are those letters in
   * either case, so the comparison comes out the same.
   */
  predicate IsRootName(name: string) {
    |name| == 4 && forall i :: 0 <= i < 4 ==> LowerAscii(name[i]) == "root"[i]
  }

  /** The sixteen spellings that are not wrapped under their own name. */
  lemma RootNameSpelling(name: string)
    ensures IsRootName(name) <==>
      && |name| == 4
      && name[0] in {'r', 'R'} && name[1] in {'o', 'O'}
      && name[2] in {'o', 'O'} && name[3] in {'t', 'T'}
  {
    if |name| == 4 {
      assert LowerAscii(name[0]) == 'r' <==> name[0] in {'r', 'R'};
      assert LowerAscii(name[1]) == 'o' <==> name[1] in {'o', 'O'};
      assert LowerAscii(name[2]) == 'o' <==> name[2] in {'o', 'O'};
      assert LowerAscii(name[3]) == 't' <==> name[3] in {'t', 'T'};
    }
  }

  /**
   * The plist built for one root: a container root is resolved and, unless
   * it is named `root` in some casing, wrapped as `{name: ...}`; any other
   * root is wrapped as it is.
   */
  function RootValue(name: string, root: Value, table: seq<Value>, convert: Converter, depth: nat): Resolved<Value> {
    if IsContainer(root) then
      match ResolveContainer(root, table, convert, depth)
      case Err(e) => Err(e)
      case Ok(p) => Ok(if IsRootName(name) then p else Dict([(name, p)]))
    else
      Ok(Dict([(name, root)]))
  }

  /** The plists of the roots that come before the first root whose resolution raises. */
  function LeadingRootValues(roots: seq<(string, Value)>, table: seq<Value>, convert: Converter, depth: nat): (r: seq<Value>)
    ensures |r| <= |roots|
    decreases |roots|
  {
    if roots == [] then []
    else
      var init := LeadingRootValues(roots[..|roots| - 1], table, convert, depth);
      var last := roots[|roots| - 1];
      if |init| == |roots| - 1 && RootValue(last.0, last.1, table, convert, depth).Ok? then
        init + [RootValue(last.0, last.1, table, convert, depth).value]
      else
        init
  }

  /**
   * What process_nsa_plist returns: with exactly one root, that root's plist
   * (or the initial empty list if it raises); otherwise the list of the
   * plists appended before the first exception.
   */
  function TopLevel(archive: Archive, convert: Converter, depth: nat): Value {
    if |archive.roots| == 1 then
      var (name, root) := archive.roots[0];
      match RootValue(name, root, archive.objects, convert, depth)
      case Ok(p) => p
      case Err(_) => Array([])
    else
      Array(LeadingRootValues(archive.roots, archive.objects, convert, depth))
  }

  /** The loop of process_nsa_plist, with its try/except around all of it. */
  method ProcessNsaPlist(archive: Archive, convert: Converter, depth: nat) returns (topLevel: Value)
    ensures topLevel == TopLevel(archive, convert, depth)
  {
    var roots, table := archive.roots, archive.objects;
    topLevel := Array([]);
    var i := 0;
    while i < |roots|
      invariant 0 <= i <= |roots|
      invariant |LeadingRootValues(roots[..i], table, convert, depth)| == i
      invariant |roots| == 1 && i == 1 ==> topLevel == RootValue(roots[0].0, roots[0].1, table, convert, depth).value
      invariant |roots| == 1 && i == 0 ==> topLevel == Array([])
      invariant |roots| != 1 ==> topLevel == Array(LeadingRootValues(roots[..i], table, convert, depth))
    {
      var (name, root) := roots[i];
      assert roots[..i + 1][..i] == roots[..i];
      var plist: Value;
      if IsContainer(root) {
        var c: Container;
        if root.Dict? {
          c := new Container.EmptyDict();
        } else {
          c := new Container.EmptyList();
        }
        var ok := RecurseCreatePlist(c, root, table, convert, depth);
        if !ok {
          LeadingStops(roots, i, table, convert, depth);
          return;
        }
        plist := c.contents;
        if root.Dict? {
          assert plist == Dict(PutAll([], ResolveEntries(root.entries, table, convert, depth).value));
        } else {
          assert plist == Array([] + ResolveItems(root.items, table, convert, depth).value);
          assert [] + ResolveItems(root.items, table, convert, depth).value == ResolveItems(root.items, table, convert, depth).value;
        }
        assert ResolveContainer(root, table, convert, depth) == Ok(plist);
        if !IsRootName(name) {
          plist := Dict([(name, plist)]);
        }
      } else {
        plist := Dict([(name, root)]);
      }
      assert RootValue(name, root, table, convert, depth) == Ok(plist);
      if |roots| == 1 {
        topLevel := plist;
      } else {
        topLevel := Array(topLevel.items + [plist]);
      }
      i := i + 1;
    }
    assert roots[..i] == roots;
  }

  /** Once a root raises, the later roots add nothing. */
  lemma {:induction false} LeadingStops(roots: seq<(string, Value)>, k: nat, table: seq<Value>, convert: Converter, depth: nat)
    requires k < |roots|
    requires |LeadingRootValues(roots[..k], table, convert, depth)| == k
    requires RootValue(roots[k].0, roots[k].1, table, convert, depth).Err?
    ensures LeadingRootValues(roots, table, convert, depth) == LeadingRootValues(roots[..k], table, convert, depth)
    decreases |roots|
  {
    if |roots| == k + 1 {
      assert roots[..|roots| - 1] == roots[..k];
    } else {
      var init := roots[..|roots| - 1];
      assert init[..k] == roots[..k] && init[k] == roots[k];
      LeadingStops(init, k, table, convert, depth);
      assert |LeadingRootValues(init, table, convert, depth)| == k < |roots| - 1;
    }
  }

  /**
   * The leading plists are exactly those of the first roots, in order, and
   * they stop short of the roots only at a root whose resolution raises.
   */
  lemma {:induction false} LeadingRootValuesPrefix(roots: seq<(string, Value)>, table: seq<Value>, convert: Converter, depth: nat)
    ensures var r := LeadingRootValues(roots, table, convert, depth);
      && (forall i :: 0 <= i < |r| ==> RootValue(roots[i].0, roots[i].1, table, convert, depth) == Ok(r[i]))
      && (|r| < |roots| ==> RootValue(roots[|r|].0, roots[|r|].1, table, convert, depth).Err?)
    decreases |roots|
  {
    if roots != [] {
      var init := roots[..|roots| - 1];
      LeadingRootValuesPrefix(init, table, convert, depth);
      assert forall i :: 0 <= i < |init| ==> init[i] == roots[i];
    }
  }

  /**
   * With zero or several roots the result is a list of at most one plist per
   * root; it has one for every root exactly when no root raises.
   */
  lemma TopLevelSeveralRoots(archive: Archive, convert: Converter, depth: nat)
    requires |archive.roots| != 1
    ensures var t := TopLevel(archive, convert, depth);
      && t.Array?
      && |t.items| <= |archive.roots|
      && (forall i :: 0 <= i < |t.items| ==>
            RootValue(archive.roots[i].0, archive.roots[i].1, archive.objects, convert, depth) == Ok(t.items[i]))
      && (|t.items| == |archive.roots| <==>
            forall i :: 0 <= i < |archive.roots| ==>
              RootValue(archive.roots[i].0, archive.roots[i].1, archive.objects, convert, depth).Ok?)
  {
    LeadingRootValuesPrefix(archive.roots, archive.objects, convert, depth);
  }

  /**
   * A single container root comes back resolved, unwrapped when it is named
   * `root` in some casing and wrapped under its name otherwise; `[]` when its
   * resolution raises.
   */
  lemma TopLevelSingleContainer(archive: Archive, convert: Converter, depth: nat)
    requires |archive.roots| == 1 && IsContainer(archive.roots[0].1)
    ensures var (name, root) := archive.roots[0];
      var r := ResolveContainer(root, archive.objects, convert, depth);
      TopLevel(archive, convert, depth) ==
        if r.Err? then Array([]) else if IsRootName(name) then r.value else Dict([(name, r.value)])
  {
  }

  /** A single scalar root is wrapped under its name, even a name spelled `root`. */
  lemma TopLevelSingleScalar(archive: Archive, convert: Converter, depth: nat)
    requires |archive.roots| == 1 && !IsContainer(archive.roots[0].1)
    ensures TopLevel(archive, convert, depth) == Dict([archive.roots[0]])
  {
  }

  /**
   * A single dict root named `root` (in any casing) comes back unwrapped:
   * the resolved dict itself, whose keys are the root's keys without `$class`,
   * or `[]` when its resolution raises.
   */
  lemma TopLevelSingleRoot(archive: Archive, convert: Converter, depth: nat)
    requires |archive.roots| == 1 && IsRootName(archive.roots[0].0)
    requires archive.roots[0].1.Dict? && UniqueKeys(archive.roots[0].1.entries)
    ensures var t := TopLevel(archive, convert, depth);
      var es := archive.roots[0].1.entries;
      if ResolveContainer(Dict(es), archive.objects, convert, depth).Ok? then
        && t == ResolveContainer(Dict(es), archive.objects, convert, depth).value
        && t.Dict? && Keys(t.entries) == Keys(Members(es)) && ClassFree(t)
      else
        t == Array([])
  {
    var es := archive.roots[0].1.entries;
    if ResolveContainer(Dict(es), archive.objects, convert, depth).Ok? {
      ResolvedDictKeys(es, archive.objects, convert, depth);
      ResolveContainerClassFree(Dict(es), archive.objects, convert, depth);
    }
  }

  /**
   * Any other single root comes back as a one-key dict under its own name,
   * holding the resolved container or the scalar root itself, or as `[]`
   * when the container raises.
   */
  lemma TopLevelSingleNamed(archive: Archive, convert: Converter, depth: nat)
    requires |archive.roots| == 1 && !IsRootName(archive.roots[0].0)
    ensures var t := TopLevel(archive, convert, depth);
      var (name, root) := archive.roots[0];
      && (t == Array([]) || (t.Dict? && Keys(t.entries) == [name]))
      && (IsContainer(root) && ResolveContainer(root, archive.objects, convert, depth).Ok? ==>
            t == Dict([(name, ResolveContainer(root, archive.objects, convert, depth).value)]))
      && (IsContainer(root) && ResolveContainer(root, archive.objects, convert, depth).Err? ==> t == Array([]))
    ensures var (name, root) := archive.roots[0];
      !IsContainer(root) ==> TopLevel(archive, convert, depth) == Dict([(name, root)])
  {
  }
}
