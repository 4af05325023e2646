/** The cyclic iterator over the fields of a descriptor. */
module PbIterator {
  import opened Bytes
  import opened PbCodec

  ghost predicate DistinctTags(fs: seq<Field>) {
    forall i, j :: 0 <= i < j < |fs| ==> fs[i].tag != fs[j].tag
  }

  class FieldIter {
    const fields: seq<Field>
    var pos: nat
    var requiredIndex: nat

    /** `requiredIndex` is the number of required fields before the position, however it was reached. */
    ghost predicate Valid()
      reads this
    {
      && (if fields == [] then pos == 0 else pos < |fields|)
      && requiredIndex == RequiredBefore(fields, pos)
    }

    constructor (fs: seq<Field>)
      ensures Valid() && fields == fs && pos == 0
    {
      fields := fs;
      pos := 0;
      requiredIndex := 0;
    }

    /** Back to the first field; false if there is none. */
    method Begin() returns (nonempty: bool)
      modifies this
      ensures Valid() && pos == 0
      ensures nonempty <==> fields != []
    {
      pos := 0;
      requiredIndex := 0;
      nonempty := fields != [];
    }

    /** On to the next field; false when it wraps around to the first. */
    method Next() returns (more: bool)
      requires Valid()
      modifies this
      ensures Valid()
      ensures more <==> old(pos) + 1 < |fields|
      ensures pos == if more then old(pos) + 1 else 0
    {
      if fields == [] {
        return false;
      }
      var prev := fields[pos];
      pos := pos + 1;
      if pos == |fields| {
        var _ := Begin();
        return false;
      }
      if prev.rule == Required {
        requiredIndex := requiredIndex + 1;
      }
      more := true;
    }

    /** The tag at the position; an empty descriptor has its terminator there. */
    function CurrentTag(): nat
      requires Valid()
      reads this
    {
      if fields == [] then 0 else fields[pos].tag
    }

    /** Searches once around from the position. With distinct tags the outcome does not depend on where it starts; a
        failed search ends where it started. */
    method Find(tag: nat) returns (found: bool)
      requires Valid()
      modifies this
      ensures Valid()
      ensures found <==> if fields == [] then tag == 0 else FindField(fields, tag).Some?
      ensures found ==> CurrentTag() == tag
      ensures found && fields != [] && DistinctTags(fields) ==> Some(pos) == FindField(fields, tag)
      ensures !found ==> pos == old(pos)
    {
      var start := pos;
      ghost var wrapped := false;
      while true
        invariant Valid()
        invariant fields == [] ==> !wrapped
        invariant if wrapped then pos < start else start <= pos
        invariant wrapped ==> forall j :: start <= j < |fields| ==> fields[j].tag != tag
        invariant forall j :: (if wrapped then 0 else start) <= j < pos && j < |fields| ==> fields[j].tag != tag
        decreases if wrapped then 0 else 1, |fields| - pos
      {
        if CurrentTag() == tag {
          return true;
        }
        var more := Next();
        if !more {
          wrapped := true;
        }
        if pos == start {
          return false;
        }
      }
    }
  }
}
