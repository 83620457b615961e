/**
 * Values shared by the model of the xclbin section container: section
 * kinds, the entries of the section-header array and the errors the
 * container throws.
 */
module XclBinTypes {

  /** The numeric value of an `axlf_section_kind`. */
  type SectionKind = int

  /**
   * One entry of the section-header array written after the archive
   * header (`axlf_section_header`): kind, byte offset of the section's
   * data in the file, and its size. The name field is not modelled.
   */
  datatype SectionHeader = SectionHeader(kind: SectionKind, offset: nat, size: nat)

  /** The `std::runtime_error`s the container throws, by cause. */
  datatype XclBinError =
    | NotFound                                  // removeSection(ptr): not in the list
    | InvalidName                               // the name is not a section kind
    | AlreadyExists                             // addSection(PSD): the kind is present
    | Absent                                    // replace/dump/remove by name: the kind is absent
    | OpenFailed                                // the section file cannot be opened
    | OffsetMismatch(expected: nat, actual: nat) // a section would land off its header's offset

}
