/**
 Iterating over the fields of a structure, or of a class and its parents: the current field iterator, the one it
 replaced, and the plain indexed loop.
 */
module IopFields {

  /** `iop_struct_t`: a class has a chain of parents, which ends; a plain structure has none that is looked at. */
  datatype Struct = Struct(name: string, fields: seq<string>, parent: Parent)
  datatype Parent = None | Class(cls: Struct)

  /** A field pointer: null, or the index of a field. */
  datatype Field = Null | At(index: nat)

  /** The fields from index `i` of `st` on, each with the class it is in; children come before their parents. */
  function From(isClass: bool, st: Struct, i: nat): seq<(Struct, nat)>
    decreases st, |st.fields| - i
  {
    if i < |st.fields| then [(st, i)] + From(isClass, st, i + 1)
    else if isClass && st.parent.Class? then From(isClass, st.parent.cls, 0)
    else []
  }

  /** Every field of a structure or class, once. */
  function AllFields(isClass: bool, st: Struct): seq<(Struct, nat)> { From(isClass, st, 0) }

  /** A parent chain, nearest first. */
  function Chain(p: Parent): seq<Struct> {
    if p.None? then [] else [p.cls] + Chain(p.cls.parent)
  }

  /** `_iop_class_first_non_empty_parent` */
  method FirstNonEmptyParent(cls: Struct) returns (p: Parent)
    ensures p.None? ==> From(true, cls, |cls.fields|) == []
    ensures p.Class? ==> p.cls.fields != [] && From(true, cls, |cls.fields|) == From(true, p.cls, 0)
    ensures p.Class? ==> |Chain(p)| <= |Chain(cls.parent)|
  {
    p := cls.parent;
    while p.Class? && |p.cls.fields| == 0
      invariant From(true, cls, |cls.fields|) == if p.None? then [] else From(true, p.cls, 0)
      invariant |Chain(p)| <= |Chain(cls.parent)|
      decreases |Chain(p)|
    {
      p := p.cls.parent;
    }
  }

  /** The fields after the one a cursor is at. */
  function Rest(isClass: bool, field: Field, st: Struct): seq<(Struct, nat)> {
    From(isClass, st, if field.Null? then 0 else field.index + 1)
  }

  /** `_iop_struct_next_field` */
  method NextField(isClass: bool, field: Field, st: Struct) returns (next: Field, owner: Struct)
    requires field.At? ==> field.index < |st.fields|
    ensures next.Null? <==> Rest(isClass, field, st) == []
    ensures next.At? ==> next.index < |owner.fields|
    ensures next.At? ==> Rest(isClass, field, st) == [(owner, next.index)] + Rest(isClass, next, owner)
  {
    var i := if field.At? then field.index + 1 else 0;
    next, owner := At(i), st;
    if i >= |st.fields| {
      if isClass {
        var p := FirstNonEmptyParent(st);
        if p.None? {
          return Null, st;
        }
        next, owner := At(0), p.cls;
      } else {
        next := Null;
      }
    }
  }

  lemma Append<T>(s: seq<T>, x: T, t: seq<T>)
    ensures s + ([x] + t) == (s + [x]) + t && |s| < |s + ([x] + t)|
  {
  }

  /** `iop_struct_for_each_field` */
  method ForEachField(isClass: bool, st: Struct) returns (visited: seq<(Struct, nat)>)
    ensures visited == AllFields(isClass, st)
  {
    visited := [];
    var cur := st;
    var f := Null;
    f, cur := NextField(isClass, f, cur);
    while f.At?
      invariant f.At? ==> f.index < |cur.fields|
      invariant f.At? ==> visited + ([(cur, f.index)] + Rest(isClass, f, cur)) == AllFields(isClass, st)
      invariant f.Null? ==> visited == AllFields(isClass, st)
      decreases |AllFields(isClass, st)| - |visited|, f.At?
    {
      Append(visited, (cur, f.index), Rest(isClass, f, cur));
      visited := visited + [(cur, f.index)];
      f, cur := NextField(isClass, f, cur);
    }
  }

  /** The loop `_iop_class_get_next_field` is made of: to the first class, from `st` on, that has a field at the index. */
  method OldNextField(st: Parent, it: nat) returns (found: bool, cls: Parent, i: nat)
    ensures found <==> OldRest(st, it) != []
    ensures found ==> cls.Class? && i < |cls.cls.fields| && OldRest(st, it) == [(cls.cls, i)] + OldRest(cls, i + 1)
  {
    cls, i := st, it;
    while cls.Class? && i >= |cls.cls.fields|
      invariant OldRest(cls, i) == OldRest(st, it)
      decreases |Chain(cls)|
    {
      cls, i := cls.cls.parent, 0;
    }
    found := cls.Class?;
  }

  function OldRest(st: Parent, it: nat): seq<(Struct, nat)> {
    if st.None? then [] else From(true, st.cls, it)
  }

  /** `iop_class_for_each_field`, the iteration that was replaced */
  method OldForEachField(st: Struct) returns (visited: seq<(Struct, nat)>)
    ensures visited == AllFields(true, st)
  {
    visited := [];
    var found: bool, cls: Parent, it: nat := OldNextField(Class(st), 0);
    while found
      invariant found ==> cls.Class? && it < |cls.cls.fields|
      invariant found ==> visited + ([(cls.cls, it)] + OldRest(cls, it + 1)) == AllFields(true, st)
      invariant !found ==> visited == AllFields(true, st)
      decreases |AllFields(true, st)| - |visited|, found
    {
      Append(visited, (cls.cls, it), OldRest(cls, it + 1));
      visited := visited + [(cls.cls, it)];
      found, cls, it := OldNextField(cls, it + 1);
    }
  }

  /** The indexed loop over a plain structure */
  method IndexedLoop(st: Struct) returns (visited: seq<(Struct, nat)>)
    ensures visited == AllFields(false, st)
  {
    visited := [];
    for i := 0 to |st.fields|
      invariant visited + From(false, st, i) == AllFields(false, st)
    {
      visited := visited + [(st, i)];
    }
  }

  // ---------------------------------------------------------------- what the fields are

  /** The fields of one class by themselves */
  function Own(st: Struct): seq<(Struct, nat)> {
    seq(|st.fields|, i requires 0 <= i < |st.fields| => (st, i))
  }

  function OwnOfAll(sts: seq<Struct>): seq<(Struct, nat)> {
    if sts == [] then [] else Own(sts[0]) + OwnOfAll(sts[1..])
  }

  lemma {:induction false} FromOwn(isClass: bool, st: Struct, i: nat)
    requires i <= |st.fields|
    ensures From(isClass, st, i) == Own(st)[i..] + From(isClass, st, |st.fields|)
    decreases |st.fields| - i
  {
    if i < |st.fields| {
      FromOwn(isClass, st, i + 1);
      assert Own(st)[i..] == [(st, i)] + Own(st)[i + 1..];
    }
  }

  /** The fields of a class are its own, then those of its parents in turn, whether or not these have any. */
  lemma {:induction false} ByClass(st: Struct)
    ensures AllFields(true, st) == OwnOfAll([st] + Chain(st.parent))
    decreases st
  {
    FromOwn(true, st, 0);
    assert Own(st)[0..] == Own(st);
    var all := [st] + Chain(st.parent);
    assert all[1..] == Chain(st.parent);
    if st.parent.Class? {
      ByClass(st.parent.cls);
    }
  }

  /** The fields of a plain structure are its own. */
  lemma PlainFields(st: Struct)
    ensures AllFields(false, st) == Own(st)
  {
    FromOwn(false, st, 0);
    assert Own(st)[0..] == Own(st);
  }
}
