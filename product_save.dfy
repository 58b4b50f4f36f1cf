/** The image-resolution gate that `Product.save` runs before a Notebook or
    Smartphones row is written, and the table the accepted rows go to. */
module ProductImages {

  /** `Product.MIN_RESOLUTION`, unpacked as (height, width). */
  const MinHeight: nat := 400
  const MinWidth: nat := 400
  /** `Product.MAX_RESOLUTION`, unpacked as (height, width). */
  const MaxHeight: nat := 800
  const MaxWidth: nat := 800

  /** The pixel dimensions of a decoded image. */
  datatype Image = Image(height: nat, width: nat)

  /** The two concrete product tables. */
  datatype Kind = Notebook | Smartphones

  /** The shared shape of a product row; the per-kind attribute columns carry
      no behaviour and are not modelled. */
  datatype Product = Product(
    id: nat,
    kind: Kind,
    categoryId: nat,
    title: string,
    slug: string,
    image: Image)

  /** What a call to `save` ends in: one of the two exceptions, or the write. */
  datatype SaveOutcome = MinResolutionError | MaxResolutionError | Saved

  /** Both axes inside the inclusive [400, 800] band. */
  predicate WithinResolution(img: Image)
  {
    MinHeight <= img.height <= MaxHeight && MinWidth <= img.width <= MaxWidth
  }

  /** The two checks of `save`, the low bound first: the first failing one
      decides the outcome. */
  function CheckResolution(img: Image): (r: SaveOutcome)
    ensures r == MinResolutionError <==> img.height < 400 || img.width < 400
    ensures r == MaxResolutionError <==>
              img.height >= 400 && img.width >= 400 && (img.height > 800 || img.width > 800)
    ensures r == Saved <==> WithinResolution(img)
  {
    if img.height < MinHeight || img.width < MinWidth then MinResolutionError
    else if img.height > MaxHeight || img.width > MaxWidth then MaxResolutionError
    else Saved
  }

  /** The rows of one concrete product table (`Product` itself is abstract,
      so there is one table per kind), keyed by primary key. Every row in it
      is of the table's kind and has passed the resolution gate, since in this
      model `Save` is the only way in. */
  class ProductTable {
    const kind: Kind
    var rows: map<nat, Product>

    ghost predicate Valid()
      reads this
    {
      forall id :: id in rows ==>
        rows[id].id == id && rows[id].kind == kind && WithinResolution(rows[id].image)
    }

    constructor (kind: Kind)
      ensures Valid() && this.kind == kind && rows == map[]
    {
      this.kind := kind;
      rows := map[];
    }

    /** `Product.save`: raise on a bad resolution; otherwise, for a plain
        call, insert the row or overwrite the row with the same primary key. */
    method Save(p: Product) returns (outcome: SaveOutcome)
      requires Valid()
      requires p.kind == kind
      modifies this
      ensures Valid()
      ensures outcome == CheckResolution(p.image)
      ensures outcome == Saved <==> WithinResolution(p.image)
      ensures rows == if outcome == Saved then old(rows)[p.id := p] else old(rows)
    {
      var img := p.image;
      if img.height < MinHeight || img.width < MinWidth {
        return MinResolutionError;
      }
      if img.height > MaxHeight || img.width > MaxWidth {
        return MaxResolutionError;
      }
      rows := rows[p.id := p];
      outcome := Saved;
    }
  }
}
