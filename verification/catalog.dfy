/** The catalog's data model: product records, the three seed records the
    service starts with, lookup by id, and the invariants a well-kept catalog
    satisfies. The catalog itself is a `seq<Product>` in insertion order. */
module Catalog {
  import JsArray

  type Id = string

  datatype Product = Product(
    id: Id,
    name: string,
    description: string,
    price: int,
    category: string,
    inStock: bool)

  /** The records the catalog holds when the process starts. */
  function Seed(): seq<Product> {
    [ Product("1", "Laptop", "High-performance laptop with 16GB RAM", 1200, "electronics", true),
      Product("2", "Smartphone", "Latest model with 128GB storage", 800, "electronics", true),
      Product("3", "Coffee Maker", "Programmable coffee maker with timer", 50, "kitchen", false) ]
  }

  /** The predicate `p => p.id === id` the id-based handlers search with. */
  function HasId(id: Id): Product -> bool {
    (p: Product) => p.id == id
  }

  /** `products.findIndex(p => p.id === id)`: the first position holding `id`, or -1. */
  function IndexOf(ps: seq<Product>, id: Id): (r: int)
    ensures -1 <= r < |ps|
    ensures r == -1 <==> !IdUsed(ps, id)
    ensures 0 <= r ==> ps[r].id == id && forall j :: 0 <= j < r ==> ps[j].id != id
  {
    JsArray.FindIndex(ps, HasId(id))
  }

  predicate IdUsed(ps: seq<Product>, id: Id) {
    exists i :: 0 <= i < |ps| && ps[i].id == id
  }

  /** No two records share an id. */
  ghost predicate UniqueIds(ps: seq<Product>) {
    forall i, j :: 0 <= i < j < |ps| ==> ps[i].id != ps[j].id
  }

  /** The fields every record passes the create check with, and that a partial
      update cannot take away: non-empty strings and a non-zero price. */
  predicate CompleteRecord(p: Product) {
    p.name != "" && p.description != "" && p.category != "" && p.price != 0
  }

  /** The catalog invariant: unique ids and complete records. */
  ghost predicate WellKept(ps: seq<Product>) {
    UniqueIds(ps) && forall i :: 0 <= i < |ps| ==> CompleteRecord(ps[i])
  }

  /** The seed catalog satisfies the invariant. */
  lemma SeedWellKept()
    ensures WellKept(Seed())
    ensures |Seed()| == 3
  {
  }
}
