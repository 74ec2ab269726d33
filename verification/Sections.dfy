/**
  Long sections and the tables that are made of them (tsSection.cpp, tsBinaryTable.cpp).
 */
module Sections {
  import opened Octets

  type UInt16 = x: int | 0 <= x < 0x10000

  // MAX_PSI_LONG_SECTION_PAYLOAD_SIZE: a section of 1024 bytes without header and CRC.
  const PAYLOAD_SIZE := 1024 - 8 - 4

  // The highest version that a section can have. The version of a table is any byte.
  const MAX_VERSION := 31

  datatype Section = Section(tableId: Byte, tidExt: UInt16, version: Byte, isCurrent: bool, number: Byte,
          payload: seq<Byte>)
  {
    predicate Valid() {
      version <= MAX_VERSION
    }
  }

  // Add a section at the place given by its number: at the end, or instead of the
  // one with the same number. An invalid section is rejected. The sections of a
  // serialized table come in order, so that no number is ever beyond the end.
  function PutSection(table: seq<Section>, s: Section): seq<Section> {
    if !s.Valid() then table
    else if s.number < |table| then table[s.number := s]
    else table + [s]
  }
}
