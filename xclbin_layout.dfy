/**
 * The byte layout `XclBin::writeXclBinBinarySections` gives an archive:
 * the header, the array of section headers, then each section's data on
 * the next 8-byte boundary after the previous one. The offsets are
 * computed in one pass and checked against the stream position in a
 * second pass that pads and writes; the reader finds the header entries
 * where the writer put them.
 */
module XclBinLayout {
  import opened Wrappers
  import opened XclBinTypes

  /** Sections start on 8-byte boundaries. */
  const Alignment: nat := 8

  /** The zero bytes that bring position `x` up to the next boundary. */
  function BytesToAlign(x: nat): (r: nat)
    ensures r < Alignment && (x + r) % Alignment == 0
  {
    (Alignment - x % Alignment) % Alignment
  }

  /** The first 8-byte boundary at or after `x`. */
  function AlignUp(x: nat): nat
  {
    x + BytesToAlign(x)
  }

  /**
   * The position just after the data of the sections of the given sizes,
   * laid out one after the other from `start`, each padded to a boundary.
   */
  function LayoutEnd(start: nat, sizes: seq<nat>): nat
  {
    if |sizes| == 0 then start
    else AlignUp(LayoutEnd(start, sizes[..|sizes| - 1])) + sizes[|sizes| - 1]
  }

  /** The offset of each section: the boundary after the ones before it. */
  function Offsets(start: nat, sizes: seq<nat>): (r: seq<nat>)
    ensures |r| == |sizes|
  {
    seq(|sizes|, i requires 0 <= i < |sizes| => AlignUp(LayoutEnd(start, sizes[..i])))
  }

  /**
   * Where the section data starts: after the archive header without its
   * one built-in header entry (`sizeof(axlf) - sizeof(axlf_section_header)`)
   * and the array of `n` entries.
   */
  function DataStart(axlfSize: nat, entrySize: nat, n: nat): nat
    requires entrySize <= axlfSize
  {
    axlfSize - entrySize + n * entrySize
  }

  /**
   * Where the reader of a binary archive looks for entry `index` of the
   * header array: `sizeof(axlf) + index * sizeof(axlf_section_header) -
   * sizeof(axlf_section_header)`.
   */
  function ReaderEntryPos(axlfSize: nat, entrySize: nat, index: nat): nat
    requires entrySize <= axlfSize
  {
    axlfSize + index * entrySize - entrySize
  }

  lemma AlignUpBounds(x: nat)
    ensures x <= AlignUp(x) < x + Alignment && AlignUp(x) % Alignment == 0
  {
  }

  /** The layout of a prefix of the sections is the prefix of the layout. */
  lemma {:induction false} OffsetsPrefix(start: nat, sizes: seq<nat>, k: nat)
    requires k <= |sizes|
    ensures Offsets(start, sizes)[..k] == Offsets(start, sizes[..k])
  {
    forall i | 0 <= i < k
      ensures Offsets(start, sizes)[i] == Offsets(start, sizes[..k])[i]
    {
      assert sizes[..k][..i] == sizes[..i];
    }
  }

  /** Laying out one more section ends after its data. */
  lemma LayoutEndStep(start: nat, sizes: seq<nat>, k: nat)
    requires k < |sizes|
    ensures LayoutEnd(start, sizes[..k + 1]) == Offsets(start, sizes)[k] + sizes[k]
  {
    assert sizes[..k + 1][..k] == sizes[..k];
  }

  /** The end of the layout only grows as sections are added. */
  lemma {:induction false} LayoutEndMonotone(start: nat, sizes: seq<nat>, i: nat, j: nat)
    requires i <= j <= |sizes|
    ensures LayoutEnd(start, sizes[..i]) <= LayoutEnd(start, sizes[..j])
    decreases j - i
  {
    if i < j {
      LayoutEndMonotone(start, sizes, i, j - 1);
      assert sizes[..j][..j - 1] == sizes[..j - 1];
      AlignUpBounds(LayoutEnd(start, sizes[..j - 1]));
    }
  }

  /**
   * Every section offset is on an 8-byte boundary, no section starts
   * before `start`, and padding never exceeds 7 bytes: the first section
   * sits within 8 bytes of `start`, each later one within 8 bytes of the
   * end of the one before.
   */
  lemma OffsetsAligned(start: nat, sizes: seq<nat>)
    ensures forall i :: 0 <= i < |sizes| ==>
      Offsets(start, sizes)[i] % Alignment == 0 && start <= Offsets(start, sizes)[i]
    ensures |sizes| > 0 ==> Offsets(start, sizes)[0] < start + Alignment
    ensures forall i :: 0 < i < |sizes| ==>
      Offsets(start, sizes)[i - 1] + sizes[i - 1] <= Offsets(start, sizes)[i]
      < Offsets(start, sizes)[i - 1] + sizes[i - 1] + Alignment
  {
    forall i | 0 <= i < |sizes|
      ensures Offsets(start, sizes)[i] % Alignment == 0 && start <= Offsets(start, sizes)[i]
    {
      LayoutEndMonotone(start, sizes, 0, i);
      AlignUpBounds(LayoutEnd(start, sizes[..i]));
    }
    if |sizes| > 0 {
      AlignUpBounds(LayoutEnd(start, sizes[..0]));
    }
    forall i | 0 < i < |sizes|
      ensures Offsets(start, sizes)[i - 1] + sizes[i - 1] <= Offsets(start, sizes)[i]
        < Offsets(start, sizes)[i - 1] + sizes[i - 1] + Alignment
    {
      LayoutEndStep(start, sizes, i - 1);
      AlignUpBounds(LayoutEnd(start, sizes[..i]));
    }
  }

  /**
   * Sections never overlap and keep the list's order: section `i`'s data
   * ends at or before section `j` starts whenever `i < j`.
   */
  lemma OffsetsDisjoint(start: nat, sizes: seq<nat>, i: nat, j: nat)
    requires i < j < |sizes|
    ensures Offsets(start, sizes)[i] + sizes[i] <= Offsets(start, sizes)[j]
  {
    LayoutEndStep(start, sizes, i);
    LayoutEndMonotone(start, sizes, i + 1, j);
    AlignUpBounds(LayoutEnd(start, sizes[..j]));
  }

  /**
   * The first pass of the writer: running from the data start, pad each
   * section's offset to a boundary, record it, and step over the data.
   */
  method LayoutSections(axlfSize: nat, entrySize: nat, sizes: seq<nat>) returns (offsets: seq<nat>)
    requires entrySize <= axlfSize
    ensures offsets == Offsets(DataStart(axlfSize, entrySize, |sizes|), sizes)
  {
    var start := DataStart(axlfSize, entrySize, |sizes|);
    var currentOffset := start;
    offsets := [];
    var index := 0;
    while index < |sizes|
      invariant 0 <= index <= |sizes|
      invariant offsets == Offsets(start, sizes[..index])
      invariant currentOffset == LayoutEnd(start, sizes[..index])
    {
      currentOffset := currentOffset + BytesToAlign(currentOffset);
      OffsetsPrefix(start, sizes[..index + 1], index);
      assert sizes[..index + 1][..index] == sizes[..index];
      offsets := offsets + [currentOffset];
      LayoutEndStep(start, sizes, index);
      OffsetsPrefix(start, sizes, index + 1);
      currentOffset := currentOffset + sizes[index];
      index := index + 1;
    }
    assert sizes[..index] == sizes;
  }

  /**
   * The second pass of the writer: from stream position `pos`, pad to the
   * next boundary, throw if that is not the offset recorded for the
   * section, else write the section's data. It succeeds exactly when the
   * recorded offsets are the layout from `pos`; otherwise it stops at the
   * first section whose recorded offset differs.
   */
  method WriteSections(pos0: nat, offsets: seq<nat>, sizes: seq<nat>)
    returns (err: Option<XclBinError>, pos: nat)
    requires |offsets| == |sizes|
    ensures err.None? <==> offsets == Offsets(pos0, sizes)
    ensures err.None? ==> pos == LayoutEnd(pos0, sizes)
    ensures err.Some? ==>
      exists i :: (0 <= i < |sizes| && offsets[..i] == Offsets(pos0, sizes)[..i]
        && err.value == OffsetMismatch(offsets[i], Offsets(pos0, sizes)[i])
        && offsets[i] != Offsets(pos0, sizes)[i])
  {
    pos := pos0;
    var index := 0;
    while index < |sizes|
      invariant 0 <= index <= |sizes|
      invariant offsets[..index] == Offsets(pos0, sizes)[..index]
      invariant pos == LayoutEnd(pos0, sizes[..index])
    {
      pos := pos + BytesToAlign(pos);
      if pos != offsets[index] {
        return Some(OffsetMismatch(offsets[index], pos)), pos;
      }
      LayoutEndStep(pos0, sizes, index);
      assert offsets[..index + 1] == offsets[..index] + [offsets[index]];
      assert Offsets(pos0, sizes)[..index + 1]
        == Offsets(pos0, sizes)[..index] + [Offsets(pos0, sizes)[index]];
      pos := pos + sizes[index];
      index := index + 1;
    }
    assert offsets == offsets[..index];
    assert sizes[..index] == sizes;
    err := None;
  }

  /**
   * The reader finds header entry `index` exactly where the writer put
   * it: `index` entries into the array that follows the archive header,
   * wholly inside that array, and before the first section's data.
   */
  lemma ReaderMatchesWriter(axlfSize: nat, entrySize: nat, sizes: seq<nat>, index: nat)
    requires entrySize <= axlfSize && index < |sizes|
    ensures ReaderEntryPos(axlfSize, entrySize, index) == DataStart(axlfSize, entrySize, 0) + index * entrySize
    ensures ReaderEntryPos(axlfSize, entrySize, index) + entrySize <= DataStart(axlfSize, entrySize, |sizes|)
    ensures ReaderEntryPos(axlfSize, entrySize, index) + entrySize
      <= Offsets(DataStart(axlfSize, entrySize, |sizes|), sizes)[0]
  {
    OffsetsAligned(DataStart(axlfSize, entrySize, |sizes|), sizes);
    assert (index + 1) * entrySize <= |sizes| * entrySize by {
      MulMonotone(index + 1, |sizes|, entrySize);
    }
  }

  lemma MulMonotone(a: nat, b: nat, c: nat)
    requires a <= b
    ensures a * c <= b * c
  {
  }

}
