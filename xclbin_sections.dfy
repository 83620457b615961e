/**
 * The section container of an xclbin archive (`XclBin`): the ordered
 * list of section objects with the header's count of them, the pointer
 * operations add, remove and find, the operations driven by a section
 * name (add, replace, dump, remove), and the writer of the section part
 * of a binary archive.
 */
module XclBinSections {
  import opened Wrappers
  import opened XclBinTypes
  import opened XclBinLayout

  /**
   * A section object. Its kind never changes; `size` is the length of
   * its buffer, which replacing the section's contents changes. Two
   * sections are the same only if they are the same object.
   */
  class Section {
    const kind: SectionKind
    var size: nat

    constructor (kind: SectionKind, size: nat)
      ensures this.kind == kind && this.size == size
    {
      this.kind := kind;
      this.size := size;
    }
  }

  /** Position of the first occurrence of `p` in `s`, if any. */
  function IndexOf(s: seq<Section>, p: Section): (r: Option<nat>)
    ensures r.None? <==> p !in s
    ensures r.Some? ==> r.value < |s| && s[r.value] == p && p !in s[..r.value]
  {
    if |s| == 0 then None
    else if s[0] == p then Some(0)
    else
      match IndexOf(s[1..], p)
      case None => None
      case Some(i) =>
        assert s[..i + 1] == [s[0]] + s[1..][..i];
        Some(i + 1)
  }

  /** Position of the first section of kind `k` in `s`, if any. */
  function KindIndex(s: seq<Section>, k: SectionKind): (r: Option<nat>)
    ensures r.None? <==> forall j :: 0 <= j < |s| ==> s[j].kind != k
    ensures r.Some? ==>
      && r.value < |s| && s[r.value].kind == k
      && forall j :: 0 <= j < r.value ==> s[j].kind != k
  {
    if |s| == 0 then None
    else if s[0].kind == k then Some(0)
    else
      match KindIndex(s[1..], k)
      case None => None
      case Some(i) => Some(i + 1)
  }

  /** `s` without its entry at `i`, the others kept in order. */
  function Without(s: seq<Section>, i: nat): (r: seq<Section>)
    requires i < |s|
    ensures |r| == |s| - 1
    ensures multiset(r) + multiset{s[i]} == multiset(s)
  {
    assert s == s[..i] + [s[i]] + s[i + 1..];
    s[..i] + s[i + 1..]
  }

  /** No two sections of the list share a kind. */
  ghost predicate DistinctKinds(s: seq<Section>)
  {
    forall i, j :: 0 <= i < j < |s| ==> s[i].kind != s[j].kind
  }

  /** Appending a section whose kind is absent keeps the kinds distinct. */
  lemma AppendKeepsDistinct(s: seq<Section>, p: Section)
    requires DistinctKinds(s) && KindIndex(s, p.kind).None?
    ensures DistinctKinds(s + [p])
  {
  }

  /** Removing any one section keeps the kinds distinct. */
  lemma WithoutKeepsDistinct(s: seq<Section>, i: nat)
    requires DistinctKinds(s) && i < |s|
    ensures DistinctKinds(Without(s, i))
  {
    var r := Without(s, i);
    forall a, b | 0 <= a < b < |r|
      ensures r[a].kind != r[b].kind
    {
      var a' := if a < i then a else a + 1;
      var b' := if b < i then b else b + 1;
      assert r[a] == s[a'] && r[b] == s[b'];
    }
  }

  /**
   * Removing a section that was just appended restores the list, and
   * with distinct kinds the removed kind is gone afterwards.
   */
  lemma RemoveUndoesAppend(s: seq<Section>, p: Section)
    requires p !in s
    ensures IndexOf(s + [p], p) == Some(|s|)
    ensures Without(s + [p], |s|) == s
  {
    var t := s + [p];
    assert t[..|s|] == s;
  }

  /** With distinct kinds, after removing the section of kind `k` none is left. */
  lemma RemovedKindIsGone(s: seq<Section>, k: SectionKind)
    requires DistinctKinds(s) && KindIndex(s, k).Some?
    ensures KindIndex(Without(s, KindIndex(s, k).value), k).None?
  {
    var i := KindIndex(s, k).value;
    var r := Without(s, i);
    forall j | 0 <= j < |r|
      ensures r[j].kind != k
    {
      if j < i {
        assert r[j] == s[j];
      } else {
        assert r[j] == s[j + 1];
      }
    }
  }

  /** The sizes of the sections, in order. */
  function SizesOf(s: seq<Section>): (r: seq<nat>)
    reads s
    ensures |r| == |s| && forall i :: 0 <= i < |s| ==> r[i] == s[i].size
  {
    seq(|s|, i reads s requires 0 <= i < |s| => s[i].size)
  }

  /**
   * The archive's sections. `numSections` is the header's
   * `m_numSections`, which every operation resets to the list's length.
   */
  class XclBin {
    var sections: seq<Section>
    var numSections: nat

    /** The header's count agrees with the list. */
    ghost predicate Valid()
      reads this
    {
      numSections == |sections|
    }

    constructor ()
      ensures Valid() && sections == []
    {
      sections := [];
      numSections := 0;
    }

    /** `addSection(Section*)`: null is ignored; any other section goes last. */
    method AddSection(p: Section?)
      modifies this
      ensures p == null ==> sections == old(sections) && numSections == old(numSections)
      ensures p != null ==> sections == old(sections) + [p] && Valid()
    {
      if p == null {
        return;
      }
      sections := sections + [p];
      numSections := |sections|;
    }

    /**
     * `removeSection(const Section*)`: null is ignored; otherwise the
     * first entry that is `p` itself is erased, the others keeping their
     * order, and a section not in the list is an error that changes
     * nothing.
     */
    method RemoveSection(p: Section?) returns (err: Option<XclBinError>)
      modifies this
      ensures p == null ==> err == None && sections == old(sections) && numSections == old(numSections)
      ensures p != null && p !in old(sections) ==>
        err == Some(NotFound) && sections == old(sections) && numSections == old(numSections)
      ensures p != null && p in old(sections) ==>
        err == None && sections == Without(old(sections), IndexOf(old(sections), p).value) && Valid()
    {
      if p == null {
        return None;
      }
      var index := 0;
      while index < |sections|
        invariant 0 <= index <= |sections|
        invariant p !in sections[..index]
      {
        if sections[index] == p {
          assert IndexOf(sections, p) == Some(index);
          sections := Without(sections, index);
          numSections := |sections|;
          return None;
        }
        assert sections[..index + 1] == sections[..index] + [sections[index]];
        index := index + 1;
      }
      assert sections[..index] == sections;
      return Some(NotFound);
    }

    /** `findSection`: the first section of kind `k`, or null. */
    method FindSection(k: SectionKind) returns (r: Section?)
      ensures KindIndex(sections, k).None? ==> r == null
      ensures KindIndex(sections, k).Some? ==> r == sections[KindIndex(sections, k).value]
    {
      var index := 0;
      while index < |sections|
        invariant 0 <= index <= |sections|
        invariant forall j :: 0 <= j < index ==> sections[j].kind != k
      {
        if sections[index].kind == k {
          return sections[index];
        }
        index := index + 1;
      }
      return null;
    }

    /**
     * `addSection(ParameterSectionData&)`: `kind` is the name's
     * translation (None for an invalid name), `fileOpen` whether the
     * section file opened, `size` the length of what was read from it.
     * An invalid name, a kind already present or an unopenable file
     * throws and changes nothing; otherwise a new section of the kind is
     * appended. The kinds therefore stay distinct.
     */
    method AddFromData(kind: Option<SectionKind>, fileOpen: bool, size: nat)
      returns (err: Option<XclBinError>, added: Section?)
      modifies this
      ensures kind.None? ==> err == Some(InvalidName)
      ensures kind.Some? && KindIndex(old(sections), kind.value).Some? ==> err == Some(AlreadyExists)
      ensures kind.Some? && KindIndex(old(sections), kind.value).None? && !fileOpen ==> err == Some(OpenFailed)
      ensures err.Some? ==> sections == old(sections) && numSections == old(numSections)
      ensures err.None? ==>
        && kind.Some? && fileOpen && KindIndex(old(sections), kind.value).None?
        && added != null && fresh(added) && added.kind == kind.value && added.size == size
        && sections == old(sections) + [added] && Valid()
      ensures DistinctKinds(old(sections)) ==> DistinctKinds(sections)
    {
      added := null;
      if kind.None? {
        return Some(InvalidName), added;
      }
      var existing := FindSection(kind.value);
      if existing != null {
        return Some(AlreadyExists), added;
      }
      if !fileOpen {
        return Some(OpenFailed), added;
      }
      added := new Section(kind.value, size);
      ghost var before := sections;
      AddSection(added);
      if DistinctKinds(before) {
        AppendKeepsDistinct(before, added);
      }
      err := None;
    }

    /**
     * `replaceSection`: an invalid name, an absent kind or an unopenable
     * file throws and changes nothing; otherwise the first section of the
     * kind takes the new contents, and no other section object changes.
     */
    method ReplaceFromData(kind: Option<SectionKind>, fileOpen: bool, size: nat)
      returns (err: Option<XclBinError>)
      modifies sections
      ensures kind.None? ==> err == Some(InvalidName)
      ensures kind.Some? && KindIndex(sections, kind.value).None? ==> err == Some(Absent)
      ensures kind.Some? && KindIndex(sections, kind.value).Some? && !fileOpen ==> err == Some(OpenFailed)
      ensures err.None? ==>
        && kind.Some? && fileOpen && KindIndex(sections, kind.value).Some?
        && sections[KindIndex(sections, kind.value).value].size == size
      ensures err.Some? ==> forall i :: 0 <= i < |sections| ==> sections[i].size == old(sections[i].size)
      ensures err.None? ==> forall i :: 0 <= i < |sections| ==>
        sections[i] != sections[KindIndex(sections, kind.value).value] ==> sections[i].size == old(sections[i].size)
    {
      if kind.None? {
        return Some(InvalidName);
      }
      var p := FindSection(kind.value);
      if p == null {
        return Some(Absent);
      }
      if !fileOpen {
        return Some(OpenFailed);
      }
      p.size := size;
      err := None;
    }

    /**
     * `dumpSection`: an invalid name, an absent kind or an unwritable
     * file throws; otherwise the contents written out are those of the
     * first section of the kind. Nothing in the container changes.
     */
    method DumpFromData(kind: Option<SectionKind>, fileOpen: bool)
      returns (err: Option<XclBinError>, dumped: nat)
      ensures kind.None? ==> err == Some(InvalidName)
      ensures kind.Some? && KindIndex(sections, kind.value).None? ==> err == Some(Absent)
      ensures kind.Some? && KindIndex(sections, kind.value).Some? && !fileOpen ==> err == Some(OpenFailed)
      ensures err.None? ==>
        && kind.Some? && fileOpen && KindIndex(sections, kind.value).Some?
        && dumped == sections[KindIndex(sections, kind.value).value].size
    {
      dumped := 0;
      if kind.None? {
        return Some(InvalidName), dumped;
      }
      var p := FindSection(kind.value);
      if p == null {
        return Some(Absent), dumped;
      }
      if !fileOpen {
        return Some(OpenFailed), dumped;
      }
      dumped := p.size;
      err := None;
    }

    /**
     * `removeSection(const std::string&)`: an invalid name or an absent
     * kind throws and changes nothing; otherwise the first section of the
     * kind is removed.
     */
    method RemoveByName(kind: Option<SectionKind>) returns (err: Option<XclBinError>)
      modifies this
      ensures kind.None? ==> err == Some(InvalidName)
      ensures kind.Some? && KindIndex(old(sections), kind.value).None? ==> err == Some(Absent)
      ensures err.Some? ==> sections == old(sections) && numSections == old(numSections)
      ensures err.None? ==>
        && kind.Some? && KindIndex(old(sections), kind.value).Some?
        && sections == Without(old(sections), KindIndex(old(sections), kind.value).value) && Valid()
    {
      if kind.None? {
        return Some(InvalidName);
      }
      var p := FindSection(kind.value);
      if p == null {
        return Some(Absent);
      }
      ghost var i := KindIndex(sections, kind.value).value;
      assert IndexOf(sections, p) == Some(i);
      err := RemoveSection(p);
    }

    /**
     * `writeXclBinBinarySections`: with no sections nothing is written;
     * otherwise the header array records each section's kind, size and
     * offset from the layout after the header and the array, and the
     * sections are written from stream position `pos0` plus the array.
     * The write throws a mismatch exactly when writing does not reproduce
     * those offsets, which cannot happen when the header before it ended
     * at `sizeof(axlf) - sizeof(axlf_section_header)`.
     */
    method WriteBinarySections(axlfSize: nat, entrySize: nat, pos0: nat)
      returns (headers: seq<SectionHeader>, err: Option<XclBinError>)
      requires entrySize <= axlfSize
      ensures |headers| == |sections|
      ensures forall i :: 0 <= i < |sections| ==>
        && headers[i].kind == sections[i].kind
        && headers[i].size == sections[i].size
        && headers[i].offset == Offsets(DataStart(axlfSize, entrySize, |sections|), SizesOf(sections))[i]
      ensures err.None? <==>
        || |sections| == 0
        || Offsets(pos0 + |sections| * entrySize, SizesOf(sections))
          == Offsets(DataStart(axlfSize, entrySize, |sections|), SizesOf(sections))
      ensures pos0 == axlfSize - entrySize ==> err.None?
    {
      if |sections| == 0 {
        return [], None;
      }
      var sizes := SizesOf(sections);
      var offsets := LayoutSections(axlfSize, entrySize, sizes);
      var secs := sections;
      headers := seq(|secs|, i requires 0 <= i < |secs| =>
        SectionHeader(secs[i].kind, offsets[i], sizes[i]));
      var start := pos0 + |secs| * entrySize;
      assert pos0 == axlfSize - entrySize ==> start == DataStart(axlfSize, entrySize, |secs|);
      var pos;
      err, pos := WriteSections(start, offsets, sizes);
    }
  }

}
