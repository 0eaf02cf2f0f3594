/**
 * The records a LAS file is read into: a header line's four fields, and a
 * curve definition, which carries the same four fields plus the curve's
 * samples. Dafny's datatype equality is field-wise, as the derived
 * `PartialEq` of both records is.
 */
module LasItems {

  /** One `MNEM.UNIT VALUE : DESCRIPTION` line of a header section. */
  datatype HeaderItem = HeaderItem(mnemonic: string, unit: string, value: string, descr: string)

  /**
   * A curve definition of the ~C section and, once the data section is read,
   * its column of samples. Samples are the values the f64 parser produced,
   * modelled as reals.
   */
  datatype CurveItem = CurveItem(mnemonic: string, unit: string, value: string, descr: string, data: seq<real>)
  {
    /** The four metadata fields, as the header line they came from. */
    function Metadata(): HeaderItem {
      HeaderItem(mnemonic, unit, value, descr)
    }
  }

  /** `HeaderItem::new`: the four strings are stored verbatim. */
  function NewHeaderItem(mnemonic: string, unit: string, value: string, descr: string): (h: HeaderItem)
    ensures h.mnemonic == mnemonic && h.unit == unit && h.value == value && h.descr == descr
  {
    HeaderItem(mnemonic, unit, value, descr)
  }

  /** `CurveItem::new`: the four strings are stored verbatim and the curve starts without samples. */
  function NewCurveItem(mnemonic: string, unit: string, value: string, descr: string): (c: CurveItem)
    ensures c.mnemonic == mnemonic && c.unit == unit && c.value == value && c.descr == descr
    ensures c.data == []
  {
    CurveItem(mnemonic, unit, value, descr, [])
  }

  /**
   * How the reader turns a header line of a ~C section into a curve
   * definition: its metadata is exactly the header item, and it has no data yet.
   */
  function CurveFromHeader(h: HeaderItem): (c: CurveItem)
    ensures c.Metadata() == h
    ensures c.data == []
  {
    NewCurveItem(h.mnemonic, h.unit, h.value, h.descr)
  }

  /** Two header items are equal exactly when all four fields are. */
  lemma HeaderItemEquality(a: HeaderItem, b: HeaderItem)
    ensures a == b <==> (a.mnemonic == b.mnemonic && a.unit == b.unit && a.value == b.value && a.descr == b.descr)
  {
  }

  /** Two curve items are equal exactly when all four fields and the data are. */
  lemma CurveItemEquality(a: CurveItem, b: CurveItem)
    ensures a == b <==> (a.Metadata() == b.Metadata() && a.data == b.data)
  {
  }

  /** Converting a header item to a curve and back gives the header item; different headers give different curves. */
  lemma CurveFromHeaderInjective(a: HeaderItem, b: HeaderItem)
    ensures CurveFromHeader(a) == CurveFromHeader(b) <==> a == b
  {
  }
}
