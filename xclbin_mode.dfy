/**
 * The printable name of an archive's memory mode
 * (`XclBin::getModeAsPrettyString`). The mode is the header's numeric
 * `m_mode`; the `MEM_*` values are those of the `MEM_TYPE` enumeration,
 * numbered from 0 in declaration order.
 */
module XclBinMode {
  import opened Wrappers

  /** The `MEM_*` modes the name lookup knows, in enumeration order. */
  const ModeNames: seq<string> := [
    "MEM_DDR3", "MEM_DDR4", "MEM_DRAM", "MEM_STREAMING", "MEM_PREALLOCATED_GLOB",
    "MEM_ARE", "MEM_HBM", "MEM_BRAM", "MEM_URAM"
  ]

  /** The name printed for mode `mode`: its `MEM_*` name, or "UNKNOWN". */
  function ModeAsPrettyString(mode: int): string
  {
    if mode == 0 then "MEM_DDR3"
    else if mode == 1 then "MEM_DDR4"
    else if mode == 2 then "MEM_DRAM"
    else if mode == 3 then "MEM_STREAMING"
    else if mode == 4 then "MEM_PREALLOCATED_GLOB"
    else if mode == 5 then "MEM_ARE"
    else if mode == 6 then "MEM_HBM"
    else if mode == 7 then "MEM_BRAM"
    else if mode == 8 then "MEM_URAM"
    else "UNKNOWN"
  }

  /** The mode a printed name stands for, if it names one. */
  function ModeOfName(name: string): (r: Option<int>)
    ensures r.Some? ==> 0 <= r.value < |ModeNames| && ModeNames[r.value] == name
    ensures r.None? ==> name !in ModeNames
  {
    IndexIn(ModeNames, name, 0)
  }

  function IndexIn(names: seq<string>, name: string, from: nat): (r: Option<int>)
    requires from <= |names|
    ensures r.Some? ==> from <= r.value < |names| && names[r.value] == name
    ensures r.None? ==> name !in names[from..]
    decreases |names| - from
  {
    if from == |names| then None
    else if names[from] == name then Some(from)
    else IndexIn(names, name, from + 1)
  }

  /**
   * Each listed mode gets its own name from the table, and every other
   * value, negative or past the last, prints as "UNKNOWN".
   */
  lemma PrettyStringMatchesTable(mode: int)
    ensures 0 <= mode < |ModeNames| ==> ModeAsPrettyString(mode) == ModeNames[mode]
    ensures !(0 <= mode < |ModeNames|) ==> ModeAsPrettyString(mode) == "UNKNOWN"
  {
  }

  /** No two listed modes share a name, and none is "UNKNOWN". */
  lemma {:induction false} NamesDistinct()
    ensures forall i, j :: 0 <= i < j < |ModeNames| ==> ModeNames[i] != ModeNames[j]
    ensures "UNKNOWN" !in ModeNames
  {
    forall i, j | 0 <= i < j < |ModeNames|
      ensures ModeNames[i] != ModeNames[j]
    {
      var a, b := ModeNames[i], ModeNames[j];
      assert |a| != |b| || a[4] != b[4] || a[|a| - 1] != b[|b| - 1];
    }
    assert forall i :: 0 <= i < |ModeNames| ==> ModeNames[i][0] == 'M';
  }

  /**
   * The printed name identifies the mode: reading it back gives the mode
   * for every listed mode, and "UNKNOWN" reads back as no mode.
   */
  lemma PrettyStringRoundTrip(mode: int)
    ensures 0 <= mode < |ModeNames| ==> ModeOfName(ModeAsPrettyString(mode)) == Some(mode)
    ensures ModeAsPrettyString(mode) == "UNKNOWN" <==> ModeOfName(ModeAsPrettyString(mode)).None?
  {
    PrettyStringMatchesTable(mode);
    NamesDistinct();
  }

}
