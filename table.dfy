/**
 * The aggregation table a scan adds its records to. Its bucket layout is
 * not modelled: a table is the log of the records added to it, in order,
 * keyed by the exact station bytes when it is summarised per station.
 */
module Aggregation {
  import opened Wire

  /** A decoded record: station bytes, their hash and the value in tenths. */
  datatype Record = Record(station: seq<byte>, hash: bv32, tenths: int)

  class Table {
    /** Every record added to this table (directly or by a merge), in order. */
    var records: seq<Record>

    constructor ()
      ensures records == []
    {
      records := [];
    }

    /** `readings.add(parsed)`: the record becomes part of the table. */
    method Add(r: Record)
      modifies this
      ensures records == old(records) + [r]
    {
      records := records + [r];
    }

    /** `readings.merge(t)`: every record of the other table joins this one. */
    method Merge(other: Table)
      requires other != this
      modifies this
      ensures records == old(records) + other.records
    {
      records := records + other.records;
    }
  }
}
