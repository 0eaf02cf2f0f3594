/**
 * The document a LAS file is read into: three header sections and the curve
 * section, each an insertion-ordered map from mnemonic to item, and the text
 * kept from the ~Other section. The sections are objects whose `insert`
 * updates them in place; `LasDoc` is the value such a file holds at a moment.
 */
module Las {
  import opened Wrappers
  import opened LasItems
  import opened IndexMaps

  function HeaderKey(h: HeaderItem): string {
    h.mnemonic
  }

  function CurveKey(c: CurveItem): string {
    c.mnemonic
  }

  /** One entry per mnemonic, each stored under its own mnemonic. */
  ghost predicate ItemsValid(m: IndexMap<HeaderItem>) {
    m.Valid() && KeyedBy(m, HeaderKey)
  }

  ghost predicate CurvesValid(m: IndexMap<CurveItem>) {
    m.Valid() && KeyedBy(m, CurveKey)
  }

  /** A header section (`SectionItems`): header items by mnemonic, in the order first seen. */
  class SectionItems {
    var items: IndexMap<HeaderItem>

    ghost predicate Valid()
      reads this
    {
      ItemsValid(items)
    }

    /** `SectionItems::new`: no items. */
    constructor ()
      ensures Valid()
      ensures items == Empty()
    {
      items := Empty();
    }

    /**
     * `SectionItems::insert`: the item is stored under its mnemonic. A new
     * mnemonic is appended; a mnemonic already present keeps its position
     * and the later item replaces the earlier. Nothing else changes.
     */
    method Insert(item: HeaderItem)
      requires Valid()
      modifies this
      ensures Valid()
      ensures items == old(items).Insert(item.mnemonic, item)
      ensures items.Get(item.mnemonic) == Some(item)
      ensures forall k :: k != item.mnemonic ==> items.Get(k) == old(items).Get(k)
      ensures item.mnemonic in old(items).Keys() ==> items.Keys() == old(items).Keys()
      ensures item.mnemonic !in old(items).Keys() ==> items.Keys() == old(items).Keys() + [item.mnemonic]
    {
      InsertKeyedBy(items, item, HeaderKey);
      items := items.Insert(item.mnemonic, item);
    }
  }

  /** The curve section (`SectionCurves`): curve definitions by mnemonic, in declaration order. */
  class SectionCurves {
    var items: IndexMap<CurveItem>

    ghost predicate Valid()
      reads this
    {
      CurvesValid(items)
    }

    /** `SectionCurves::new`: no curves. */
    constructor ()
      ensures Valid()
      ensures items == Empty()
    {
      items := Empty();
    }

    /**
     * `SectionCurves::insert`: the same ordered-map update, keyed by the
     * curve's mnemonic; the curve, data included, is stored as given.
     */
    method Insert(item: CurveItem)
      requires Valid()
      modifies this
      ensures Valid()
      ensures items == old(items).Insert(item.mnemonic, item)
      ensures items.Get(item.mnemonic) == Some(item)
      ensures forall k :: k != item.mnemonic ==> items.Get(k) == old(items).Get(k)
      ensures item.mnemonic in old(items).Keys() ==> items.Keys() == old(items).Keys()
      ensures item.mnemonic !in old(items).Keys() ==> items.Keys() == old(items).Keys() + [item.mnemonic]
    {
      InsertKeyedBy(items, item, CurveKey);
      items := items.Insert(item.mnemonic, item);
    }
  }

  /** The contents of a `LASFile`, as a value. */
  datatype LasDoc = LasDoc(
    version: IndexMap<HeaderItem>,
    well: IndexMap<HeaderItem>,
    curves: IndexMap<CurveItem>,
    params: IndexMap<HeaderItem>,
    other: string)

  ghost predicate DocValid(d: LasDoc) {
    ItemsValid(d.version) && ItemsValid(d.well) && CurvesValid(d.curves) && ItemsValid(d.params)
  }

  /** `LASFile::default()`: all sections empty, no other text. */
  function EmptyDoc(): (d: LasDoc)
    ensures DocValid(d)
    ensures d.version.Keys() == [] && d.well.Keys() == [] && d.curves.Keys() == [] && d.params.Keys() == []
    ensures d.other == ""
  {
    LasDoc(Empty(), Empty(), Empty(), Empty(), "")
  }

  /** `LASFile`: the four sections and the ~Other text. */
  class LASFile {
    var version: SectionItems
    var well: SectionItems
    var curves: SectionCurves
    var params: SectionItems
    var other: string

    /** The three header sections are distinct objects, and every section is valid. */
    ghost predicate Valid()
      reads this, version, well, curves, params
    {
      && version != well && version != params && well != params
      && version.Valid() && well.Valid() && curves.Valid() && params.Valid()
    }

    function Model(): LasDoc
      reads this, version, well, curves, params
    {
      LasDoc(version.items, well.items, curves.items, params.items, other)
    }

    /** `LASFile::new()` / `LASFile::default()`: an empty document. */
    constructor ()
      ensures Valid()
      ensures Model() == EmptyDoc()
      ensures fresh(version) && fresh(well) && fresh(curves) && fresh(params)
    {
      version := new SectionItems();
      well := new SectionItems();
      curves := new SectionCurves();
      params := new SectionItems();
      other := "";
    }
  }
}
