/** The write path of the catalog: create with its required-field check, the
    partial update, and delete. Each takes the current catalog and returns
    either an error kind (and the catalog stays as it was) or the record the
    answer carries together with the new catalog. */
module Mutations {
  import opened JsValues
  import opened JsArray
  import opened Responses
  import opened Catalog
  import opened Queries

  /** The five fields read from a create or update request body. */
  datatype Body = Body(
    name: Option<string>,
    description: Option<string>,
    price: Option<int>,
    category: Option<string>,
    inStock: Option<bool>)

  /** A successful write: the record sent back and the catalog afterwards. */
  datatype Mutation = Mutation(record: Product, store: seq<Product>)

  /** The create check rejects a body whose name, description, price or
      category is falsy, or whose `inStock` is absent (`false` is accepted). */
  predicate MissingRequired(b: Body) {
    || !TruthyString(b.name)
    || !TruthyString(b.description)
    || !TruthyNumber(b.price)
    || !TruthyString(b.category)
    || b.inStock.None?
  }

  /** POST /api/products. `newId` stands for the identifier the handler draws
      at random for the new record. */
  function Create(ps: seq<Product>, b: Body, newId: Id): (r: Result<Mutation>)
    ensures r.Err? <==> MissingRequired(b)
    ensures r.Err? ==> r.error == ValidationError
    ensures r.Ok? ==> r.value.store == ps + [r.value.record]
    ensures r.Ok? ==> var p := r.value.record;
      && p.id == newId
      && Some(p.name) == b.name
      && Some(p.description) == b.description
      && Some(p.price) == b.price
      && Some(p.category) == b.category
      && Some(p.inStock) == b.inStock
    ensures r.Ok? ==> CompleteRecord(r.value.record)
  {
    if MissingRequired(b) then Err(ValidationError)
    else
      var p := Product(newId, b.name.value, b.description.value, b.price.value,
                       b.category.value, b.inStock.value);
      Ok(Mutation(p, ps + [p]))
  }

  /** Creating with an id not yet in use keeps the catalog invariant. */
  lemma CreateKeepsWellKept(ps: seq<Product>, b: Body, newId: Id)
    requires WellKept(ps)
    requires !IdUsed(ps, newId)
    ensures Create(ps, b, newId).Ok? ==> WellKept(Create(ps, b, newId).value.store)
  {
  }

  /** A record created under a fresh id is what a later lookup of that id returns. */
  lemma CreateThenGet(ps: seq<Product>, b: Body, newId: Id)
    requires !IdUsed(ps, newId)
    requires !MissingRequired(b)
    ensures Create(ps, b, newId).Ok?
    ensures var m := Create(ps, b, newId).value;
      Get(m.store, newId) == Ok(m.record)
  {
    var m := Create(ps, b, newId).value;
    assert m.store[|ps|].id == newId;
    assert forall j :: 0 <= j < |ps| ==> m.store[j] == ps[j];
  }

  /** The merge a PUT applies to the stored record: the id is kept,
      `inStock` is overwritten whenever supplied (also by `false`), and each
      other field only when the supplied value is truthy. */
  function Merge(p: Product, b: Body): (q: Product)
    ensures q.id == p.id
    ensures TruthyString(b.name) ==> q.name == b.name.value
    ensures !TruthyString(b.name) ==> q.name == p.name
    ensures TruthyString(b.description) ==> q.description == b.description.value
    ensures !TruthyString(b.description) ==> q.description == p.description
    ensures TruthyNumber(b.price) ==> q.price == b.price.value
    ensures !TruthyNumber(b.price) ==> q.price == p.price
    ensures TruthyString(b.category) ==> q.category == b.category.value
    ensures !TruthyString(b.category) ==> q.category == p.category
    ensures b.inStock.Some? ==> q.inStock == b.inStock.value
    ensures b.inStock.None? ==> q.inStock == p.inStock
    ensures CompleteRecord(p) ==> CompleteRecord(q)
  {
    Product(
      p.id,
      OrString(b.name, p.name),
      OrString(b.description, p.description),
      OrNumber(b.price, p.price),
      OrString(b.category, p.category),
      b.inStock.GetOr(p.inStock))
  }

  /** Merging the same body twice changes nothing the second time. */
  lemma MergeIdempotent(p: Product, b: Body)
    ensures Merge(Merge(p, b), b) == Merge(p, b)
  {
  }

  /** PUT /api/products/:id: 404 for an unknown id; otherwise the first record
      with that id is merged with the body in place, and nothing else moves. */
  function Update(ps: seq<Product>, id: Id, b: Body): (r: Result<Mutation>)
    ensures r.Err? <==> !IdUsed(ps, id)
    ensures r.Err? ==> r.error == NotFound
    ensures r.Ok? ==> var i := IndexOf(ps, id);
      && r.value.record == Merge(ps[i], b)
      && |r.value.store| == |ps|
      && r.value.store[i] == r.value.record
      && forall j :: 0 <= j < |ps| && j != i ==> r.value.store[j] == ps[j]
  {
    var i := IndexOf(ps, id);
    if i == -1 then Err(NotFound)
    else
      var q := Merge(ps[i], b);
      Ok(Mutation(q, ps[i := q]))
  }

  /** An update keeps the catalog invariant. */
  lemma UpdateKeepsWellKept(ps: seq<Product>, id: Id, b: Body)
    requires WellKept(ps)
    ensures Update(ps, id, b).Ok? ==> WellKept(Update(ps, id, b).value.store)
  {
  }

  /** After an update, looking the id up returns the updated record. */
  lemma UpdateThenGet(ps: seq<Product>, id: Id, b: Body)
    requires Update(ps, id, b).Ok?
    ensures var m := Update(ps, id, b).value;
      Get(m.store, id) == Ok(m.record)
  {
    var m := Update(ps, id, b).value;
    var i := IndexOf(ps, id);
    assert m.store[i].id == id;
    assert forall j :: 0 <= j < i ==> m.store[j].id != id;
  }

  /** Repeating a PUT with the same body answers the same and changes nothing more. */
  lemma UpdateIdempotent(ps: seq<Product>, id: Id, b: Body)
    requires Update(ps, id, b).Ok?
    ensures var m := Update(ps, id, b).value;
      Update(m.store, id, b) == Ok(m)
  {
    var m := Update(ps, id, b).value;
    var i := IndexOf(ps, id);
    assert m.store[i].id == id;
    assert forall j :: 0 <= j < i ==> m.store[j].id != id;
    assert IndexOf(m.store, id) == i;
    MergeIdempotent(ps[i], b);
    assert m.store[i := Merge(m.store[i], b)] == m.store;
  }

  /** DELETE /api/products/:id: 404 for an unknown id; otherwise the first
      record with that id is removed and sent back, the rest keep their order. */
  function Delete(ps: seq<Product>, id: Id): (r: Result<Mutation>)
    ensures r.Err? <==> !IdUsed(ps, id)
    ensures r.Err? ==> r.error == NotFound
    ensures r.Ok? ==> var i := IndexOf(ps, id);
      && r.value.record == ps[i]
      && |r.value.store| == |ps| - 1
      && (forall j :: 0 <= j < i ==> r.value.store[j] == ps[j])
      && (forall j :: i <= j < |r.value.store| ==> r.value.store[j] == ps[j + 1])
      && multiset(r.value.store) + multiset{r.value.record} == multiset(ps)
  {
    var i := IndexOf(ps, id);
    if i == -1 then Err(NotFound)
    else Ok(Mutation(ps[i], RemoveAt(ps, i)))
  }

  /** Under unique ids, a deleted id is gone: a later lookup answers 404. */
  lemma DeleteThenGet(ps: seq<Product>, id: Id)
    requires UniqueIds(ps)
    requires Delete(ps, id).Ok?
    ensures Get(Delete(ps, id).value.store, id) == Err(NotFound)
  {
    var s := Delete(ps, id).value.store;
    var i := IndexOf(ps, id);
    forall j | 0 <= j < |s|
      ensures s[j].id != id
    {
      if j < i {
        assert s[j] == ps[j];
      } else {
        assert s[j] == ps[j + 1];
      }
    }
  }

  /** A delete keeps the catalog invariant. */
  lemma DeleteKeepsWellKept(ps: seq<Product>, id: Id)
    requires WellKept(ps)
    ensures Delete(ps, id).Ok? ==> WellKept(Delete(ps, id).value.store)
  {
    if Delete(ps, id).Ok? {
      var s := Delete(ps, id).value.store;
      var i := IndexOf(ps, id);
      assert forall j :: 0 <= j < |s| ==> s[j] == ps[if j < i then j else j + 1];
    }
  }

  /** Deleting a record just created under a fresh id gives back the catalog
      as it was before the create, and the created record. */
  lemma DeleteUndoesCreate(ps: seq<Product>, b: Body, newId: Id)
    requires !IdUsed(ps, newId)
    requires !MissingRequired(b)
    ensures Create(ps, b, newId).Ok?
    ensures var m := Create(ps, b, newId).value;
      Delete(m.store, newId) == Ok(Mutation(m.record, ps))
  {
    var m := Create(ps, b, newId).value;
    assert m.store[|ps|].id == newId;
    assert forall j :: 0 <= j < |ps| ==> m.store[j] == ps[j];
    assert IndexOf(m.store, newId) == |ps|;
    assert RemoveAt(m.store, |ps|) == ps;
  }
}
