/** The statistics handler as it is written: it counts into a plain object
    literal `{}`, which inherits the members of `Object.prototype`. Reading
    `stats[cat]` for a category named after one of them yields that inherited
    member rather than `undefined`. `(stats[cat] || 0) + 1` then concatenates
    instead of adding. Assigning a number to `stats["__proto__"]` is ignored
    altogether. `Queries.Stats` is the evidently intended count, a map with no
    inherited entries; this module shows where the two part ways and proves
    that they agree everywhere else. */
module StatsObject {
  import opened Catalog
  import Queries

  /** The value of an own property of `stats`: a count, or the string that `+`
      produced from a non-number. */
  datatype Slot = Number(n: int) | NotANumber

  /** What reading `stats[cat]` yields. */
  datatype Lookup = Undefined | Inherited | Own(slot: Slot)

  /** The property names every plain object inherits from `Object.prototype`. */
  const InheritedNames: set<string> := {
    "constructor", "hasOwnProperty", "isPrototypeOf", "propertyIsEnumerable",
    "toLocaleString", "toString", "valueOf", "__proto__",
    "__defineGetter__", "__defineSetter__", "__lookupGetter__", "__lookupSetter__" }

  /** `stats[cat]`: an own property first, then the prototype chain. */
  function Read(stats: map<string, Slot>, c: string): (v: Lookup)
    ensures v.Own? <==> c in stats
    ensures v.Undefined? <==> c !in stats && c !in InheritedNames
  {
    if c in stats then Own(stats[c])
    else if c in InheritedNames then Inherited
    else Undefined
  }

  /** `(stats[cat] || 0) + 1`. `undefined` and `0` are falsy, so they start a
      count at 1. An inherited function or object, or a string left by an
      earlier step, is truthy, and `+ 1` appends to its string form. */
  function PlusOne(v: Lookup): (s: Slot)
    ensures s.Number? <==> v.Undefined? || (v.Own? && v.slot.Number?)
  {
    match v
    case Undefined => Number(1)
    case Inherited => NotANumber
    case Own(Number(n)) => Number(n + 1)
    case Own(NotANumber) => NotANumber
  }

  /** `stats[cat] = v`. The `__proto__` setter ignores a value that is not an
      object, so no own property of that name appears; any other name gets
      (or overwrites) an own property. */
  function Assign(stats: map<string, Slot>, c: string, v: Slot): (r: map<string, Slot>)
    ensures c == "__proto__" ==> r == stats
    ensures c != "__proto__" ==> r == stats[c := v]
  {
    if c == "__proto__" then stats else stats[c := v]
  }

  /** The `stats` object after `products.forEach`, as the code builds it. */
  function StatsAsWritten(ps: seq<Product>): (m: map<string, Slot>)
    ensures m.Keys <= Queries.Categories(ps)
    ensures "__proto__" !in m
    decreases |ps|
  {
    if ps == [] then map[]
    else
      var front := ps[..|ps| - 1];
      var c := ps[|ps| - 1].category;
      assert ps == front + [ps[|ps| - 1]];
      var before := StatsAsWritten(front);
      Assign(before, c, PlusOne(Read(before, c)))
  }

  /** The intended counts, each rendered as a number. */
  function AsNumbers(m: map<string, nat>): (r: map<string, Slot>)
    ensures r.Keys == m.Keys
    ensures forall c :: c in m ==> r[c] == Number(m[c])
  {
    map c | c in m :: Number(m[c])
  }

  /** Away from the inherited names, the object the code builds holds exactly
      the intended counts. */
  lemma {:induction false} AgreesAwayFromInherited(ps: seq<Product>)
    requires forall i :: 0 <= i < |ps| ==> ps[i].category !in InheritedNames
    ensures StatsAsWritten(ps) == AsNumbers(Queries.Stats(ps))
    decreases |ps|
  {
    if ps != [] {
      var front, c := ps[..|ps| - 1], ps[|ps| - 1].category;
      assert forall i :: 0 <= i < |front| ==> front[i] == ps[i];
      AgreesAwayFromInherited(front);
      var before := Queries.Stats(front);
      StepAgrees(before, c);
      WrittenStep(ps);
      IntendedStep(ps);
    }
  }

  /** The object as written after one more record: one more step of the loop. */
  lemma WrittenStep(ps: seq<Product>)
    requires ps != []
    ensures var front, c := ps[..|ps| - 1], ps[|ps| - 1].category;
      StatsAsWritten(ps) == Assign(StatsAsWritten(front), c, PlusOne(Read(StatsAsWritten(front), c)))
  {
  }

  /** The intended counts after one more record: one more added to its category. */
  lemma IntendedStep(ps: seq<Product>)
    requires ps != []
    ensures var front, c := ps[..|ps| - 1], ps[|ps| - 1].category;
      var before := Queries.Stats(front);
      Queries.Stats(ps) == before[c := (if c in before then before[c] else 0) + 1]
  {
  }

  /** One step of the loop on an own property that holds a count, or on a
      name that is neither own nor inherited, adds one as intended. */
  lemma StepAgrees(before: map<string, nat>, c: string)
    requires c !in InheritedNames
    ensures var m := AsNumbers(before);
      Assign(m, c, PlusOne(Read(m, c))) == AsNumbers(before[c := (if c in before then before[c] else 0) + 1])
  {
    assert "__proto__" in InheritedNames;
  }

  /** A catalog holding one record of category `toString` gets, under the code
      as written, a string where the count 1 belongs. */
  lemma ToStringCategoryIsNotCounted(p: Product)
    requires p.category == "toString"
    ensures StatsAsWritten([p]) == map["toString" := NotANumber]
    ensures Queries.Stats([p]) == map["toString" := 1]
  {
    assert [p][..0] == [];
  }

  /** Records of category `__proto__` never show up in the statistics as
      written, although the intended count has them. */
  lemma ProtoCategoryIsDropped(ps: seq<Product>, i: int)
    requires 0 <= i < |ps| && ps[i].category == "__proto__"
    ensures "__proto__" !in StatsAsWritten(ps)
    ensures "__proto__" in Queries.Stats(ps)
  {
    assert ps[i].category in Queries.Categories(ps);
  }
}
