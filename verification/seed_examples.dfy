/** The catalog's documented behaviour on its three seed records, proved for
    the model. */
module SeedExamples {
  import opened JsValues
  import opened JsString
  import opened JsArray
  import opened Responses
  import opened Catalog
  import opened Queries
  import opened Mutations

  /** A filter over three records that keeps the first two. */
  lemma FilterFirstTwo(ps: seq<Product>, keep: Product -> bool)
    requires |ps| == 3 && keep(ps[0]) && keep(ps[1]) && !keep(ps[2])
    ensures Filter(ps, keep) == ps[..2]
  {
    assert ps[1..][1..] == ps[2..];
    assert ps[..2] == [ps[0], ps[1]];
  }

  /** A listing without parameters returns every seed record on page 1. */
  lemma ListAllSeed()
    ensures List(Seed(), None, None, None) == Listing(1, 3, Seed())
  {
    assert Window(Seed(), 1, 10) == Seed()[0..3];
  }

  /** Filtering by category ignores case, and `total` counts every match. */
  lemma ListElectronicsAnyCase()
    ensures List(Seed(), Some("ELECTRONICS"), None, None) == Listing(1, 2, Seed()[..2])
  {
    var ps := Seed();
    assert ToLowerCase("ELECTRONICS") == "electronics" == ToLowerCase("electronics");
    assert ToLowerCase("kitchen") == "kitchen";
    FilterFirstTwo(ps, CategoryMatches("ELECTRONICS"));
    assert Window(ps[..2], 1, 10) == ps[..2][0..2];
  }

  /** `limit=1&page=2` returns exactly the second record, with `total` 3. */
  lemma ListSecondPageOfOne()
    ensures List(Seed(), None, Some(2), Some(1)) == Listing(2, 3, [Seed()[1]])
  {
    assert Window(Seed(), 2, 1) == Seed()[1..2];
  }

  /** A filter over three records that keeps only the second. */
  lemma FilterSecondOnly(ps: seq<Product>, keep: Product -> bool)
    requires |ps| == 3 && !keep(ps[0]) && keep(ps[1]) && !keep(ps[2])
    ensures Filter(ps, keep) == [ps[1]]
  {
    assert ps[1..][1..] == ps[2..];
    assert Filter(ps[2..], keep) == [];
    assert Filter(ps[1..], keep) == [ps[1]];
  }

  lemma LowerPhone()
    ensures ToLowerCase("phone") == "phone"
  {
  }

  lemma LaptopLacksPhone()
    ensures !NameMatches("phone")(Seed()[0])
  {
    LowerPhone();
    assert ToLowerCase("Laptop") == "laptop";
    MissingCharExcludes("laptop", "phone", 1);
  }

  lemma SmartphoneHasPhone()
    ensures NameMatches("phone")(Seed()[1])
  {
    LowerPhone();
    assert ToLowerCase("Smartphone") == "smartphone";
    assert OccursAt("phone", "smartphone", 5);
  }

  lemma CoffeeMakerLacksPhone()
    ensures !NameMatches("phone")(Seed()[2])
  {
    LowerPhone();
    var lowered := ToLowerCase("Coffee Maker");
    forall j | 0 <= j < |lowered|
      ensures lowered[j] != 'h'
    {
      assert lowered[j] == LowerChar("Coffee Maker"[j]);
    }
    MissingCharExcludes(lowered, "phone", 1);
  }

  /** Only the Smartphone's name contains "phone", ignoring case. */
  lemma PhoneMatchesSmartphoneOnly()
    ensures !NameMatches("phone")(Seed()[0])
    ensures NameMatches("phone")(Seed()[1])
    ensures !NameMatches("phone")(Seed()[2])
  {
    LaptopLacksPhone();
    SmartphoneHasPhone();
    CoffeeMakerLacksPhone();
  }

  /** Searching "phone" finds only the Smartphone; searching nothing is a 400. */
  lemma SearchPhone()
    ensures Search(Seed(), Some("phone")) == Ok([Seed()[1]])
    ensures Search(Seed(), None) == Err(BadRequest)
  {
    PhoneMatchesSmartphoneOnly();
    FilterSecondOnly(Seed(), NameMatches("phone"));
  }

  /** The seed statistics are two electronics and one kitchen record. */
  lemma SeedStats()
    ensures Stats(Seed()) == map["electronics" := 2, "kitchen" := 1]
  {
  }

  /** A create without a price is rejected. */
  lemma CreateWithoutPrice(newId: Id)
    ensures Create(Seed(), Body(Some("Kettle"), Some("Electric kettle"), None, Some("kitchen"), Some(true)), newId)
      == Err(ValidationError)
  {
  }

  /** An update supplying only `inStock: false` clears the flag and keeps every
      other field, although `false` is falsy. */
  lemma UpdateOnlyInStock()
    ensures var r := Update(Seed(), "1", Body(None, None, None, None, Some(false)));
      r.Ok? && r.value.record == Seed()[0].(inStock := false)
  {
  }

  /** Deleting an unknown id is a 404; deleting a known one makes its lookup a 404. */
  lemma DeleteSeedRecord()
    ensures Delete(Seed(), "42") == Err(NotFound)
    ensures Delete(Seed(), "2").Ok?
    ensures Get(Delete(Seed(), "2").value.store, "2") == Err(NotFound)
  {
    assert Seed()[1].id == "2";
    SeedWellKept();
    DeleteThenGet(Seed(), "2");
  }
}
