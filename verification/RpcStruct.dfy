/** Building a struct from its declarations, and the growth of a generated array. */
module RpcStruct {
  import opened Machine
  import opened RpcWire

  /** A struct under construction: its entries, and the name that has taken each tag. */
  class Struct {
    var entries: seq<Entry>
    var tags: map<nat, string>

    ghost predicate Valid()
      reads this
    {
      && DistinctTags(entries) && (forall e :: e in entries ==> Legal(e))
      && (forall t :: t in tags ==> exists i :: 0 <= i < |entries| && entries[i].tag == t)
      && forall i :: 0 <= i < |entries| ==> entries[i].tag in tags
    }

    constructor ()
      ensures Valid() && entries == []
    {
      entries, tags := [], map[];
    }

    /** Entry.Verify followed by AddEntry; false stands for the RpcGenError raised. */
    method AddEntry(e: Entry) returns (ok: bool)
      requires Valid()
      modifies this
      ensures Valid() && entries == if ok then old(entries) + [e] else old(entries)
      ensures ok <==> Legal(e) && forall i :: 0 <= i < |old(entries)| ==> old(entries)[i].tag != e.tag
    {
      if e.isArray && (e.kind.KBytes? || e.kind.KVarBytes?) { return false; }
      if e.optional && e.isArray { return false; }
      if e.tag in tags { return false; }
      ghost var before := entries;
      entries := entries + [e];
      assert entries[|before|] == e && forall i :: 0 <= i < |before| ==> entries[i] == before[i];
      tags := tags[e.tag := e.name];
      ok := true;
    }
  }

  /** ProcessStruct: a struct comes out exactly when every declaration is legal and no tag repeats. */
  method ProcessStruct(decls: seq<Entry>) returns (ok: bool, s: Struct)
    ensures fresh(s) && s.Valid()
    ensures ok <==> DistinctTags(decls) && forall e :: e in decls ==> Legal(e)
    ensures ok ==> s.entries == decls
  {
    hide DistinctTags, Legal;
    s := new Struct();
    for i := 0 to |decls|
      invariant fresh(s) && s.Valid() && s.entries == decls[..i]
    {
      ok := s.AddEntry(decls[i]);
      if !ok {
        Rejected(decls, i);
        return;
      }
    }
    assert decls[..|decls|] == decls;
    ok := true;
  }

  lemma Rejected(decls: seq<Entry>, i: nat)
    requires i < |decls|
    requires !Legal(decls[i]) || exists j :: 0 <= j < i && decls[..i][j].tag == decls[i].tag
    ensures !(DistinctTags(decls) && forall e :: e in decls ==> Legal(e))
  {
    if Legal(decls[i]) {
      var j :| 0 <= j < i && decls[..i][j].tag == decls[i].tag;
      assert decls[j].tag == decls[i].tag;
    } else {
      assert decls[i] in decls;
    }
  }

  // ---------- Arrays ----------

  /** The data, length and num_allocated of an array entry, and its _set flag. */
  class ArrayField<T(0)> {
    var data: array?<T>
    var length: nat
    var numAllocated: nat
    var isSet: bool

    /** The allocated size is zero or a power of two, at least the length, at most 2 * (length + 1). */
    ghost predicate Valid()
      reads this
    {
      && (data == null <==> numAllocated == 0)
      && (data != null ==> data.Length == numAllocated && PowerOfTwo(numAllocated))
      && length <= numAllocated <= 2 * (length + 1)
      && (isSet <==> length > 0)
    }

    ghost function Contents(): seq<T>
      requires Valid()
      reads this, data
    {
      if data == null then [] else data[..length]
    }

    constructor ()
      ensures Valid() && Contents() == []
    {
      data, length, numAllocated, isSet := null, 0, 0, false;
    }

    /** expand_to_hold_more, called with the array full or one short of it; realloc may fail. */
    method ExpandToHoldMore(memory: bool) returns (ok: bool)
      requires Valid() && numAllocated <= length + 1
      modifies this`data, this`numAllocated
      ensures ok == memory && Valid() && Contents() == old(Contents())
      ensures if ok then numAllocated == (if old(numAllocated) == 0 then 1 else 2 * old(numAllocated)) && fresh(data)
              else data == old(data) && numAllocated == old(numAllocated)
    {
      var tobe := if numAllocated == 0 then 1 else numAllocated * 2;
      if !memory { return false; }
      if numAllocated > 0 { DoubleIsPowerOfTwo(numAllocated); }
      var bigger := new T[tobe];
      var current := data;
      if current != null {
        for i := 0 to length
          invariant bigger[..i] == current[..i] && current[..] == old(data[..])
          invariant data == current
        {
          bigger[i] := current[i];
        }
      }
      data, numAllocated := bigger, tobe;
      ok := true;
    }

    /** X_add: memory says whether realloc finds room, copied what copying the value made of it. */
    method Add(memory: bool, copied: Option<T>) returns (ok: bool)
      requires Valid()
      modifies this, data
      ensures Valid() && (ok <==> copied.Some? && (memory || old(length) + 1 < old(numAllocated)))
      ensures Contents() == if ok then old(Contents()) + [copied.value] else old(Contents())
    {
      // the length is raised before the comparison and lowered again on failure
      if length + 1 >= numAllocated {
        ok := ExpandToHoldMore(memory);
        if !ok { return; }
      }
      if copied.None? { return false; }
      data[length] := copied.value;
      length, isSet := length + 1, true;
      ok := true;
    }

    /** The unmarshal code of an array entry; decoded is what the payload decodes to. */
    method Unmarshal(memory: bool, decoded: Option<T>) returns (ok: bool)
      requires Valid()
      modifies this, data
      ensures Valid() && (ok <==> decoded.Some? && (memory || old(length) < old(numAllocated)))
      ensures Contents() == if ok then old(Contents()) + [decoded.value] else old(Contents())
    {
      if length >= numAllocated {
        ok := ExpandToHoldMore(memory);
        if !ok { return; }
      }
      if decoded.None? { return false; }
      data[length] := decoded.value;
      length := length + 1;
      isSet := true;
      ok := true;
    }

    /** The clear code of an array entry: memory kept by failed additions to an unset array stays. */
    method Clear()
      requires Valid()
      modifies this
      ensures Valid() && Contents() == [] && !isSet
      ensures numAllocated == if old(isSet) then 0 else old(numAllocated)
    {
      if isSet {
        data, isSet, length, numAllocated := null, false, 0, 0;
      }
    }
  }
}
