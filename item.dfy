/**
 * The item being placed: its quality (a payload-free enum with the derived
 * order Fragile < Oversized < Normal) and its optional constraint parameters.
 * Dates are integer day numbers; the creation timestamp is an integer.
 */
module Items {
  import opened Common

  datatype ItemQuality = Fragile | Oversized | Normal

  /** Position of a variant in declaration order, which the derived `Ord` follows. */
  function QualityRank(q: ItemQuality): (r: nat)
    ensures r < 3
  {
    match q
    case Fragile => 0
    case Oversized => 1
    case Normal => 2
  }

  /** The derived `Ord` on `ItemQuality`, strict part. */
  predicate QualityLt(a: ItemQuality, b: ItemQuality) {
    QualityRank(a) < QualityRank(b)
  }

  lemma QualityOrder(a: ItemQuality, b: ItemQuality)
    ensures QualityLt(Fragile, Oversized) && QualityLt(Oversized, Normal)
    ensures a == b || QualityLt(a, b) || QualityLt(b, a)
    ensures !(QualityLt(a, b) && QualityLt(b, a))
  {
  }

  /**
   * The source's `Item`. The three constraint parameters are independent
   * options: nothing ties `expiry`/`maxLevel` to Fragile or `requiredZones`
   * to Oversized.
   */
  datatype Item = Item(
    numId: nat,
    name: string,
    quantity: nat,
    quality: ItemQuality,
    timestamp: int,
    expiry: Option<int>,
    maxLevel: Option<nat>,
    requiredZones: Option<nat>)

  /**
   * `Item::new`: every field is taken from the arguments except the
   * timestamp, which the source reads from the clock and is a parameter here.
   */
  function NewItem(numId: nat, name: string, quantity: nat, quality: ItemQuality,
                   expiry: Option<int>, maxLevel: Option<nat>, requiredZones: Option<nat>,
                   now: int): (it: Item)
    ensures it.numId == numId && it.name == name
    ensures it.quantity == quantity && it.quality == quality
    ensures it.expiry == expiry && it.maxLevel == maxLevel && it.requiredZones == requiredZones
    ensures it.timestamp == now
  {
    Item(numId, name, quantity, quality, now, expiry, maxLevel, requiredZones)
  }

  /** The key under which cells are grouped into one logical item. */
  datatype Key = Key(numId: nat, name: string, timestamp: int)

  function KeyOf(it: Item): Key {
    Key(it.numId, it.name, it.timestamp)
  }
}
