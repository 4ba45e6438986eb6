/** The hero and the inventory of item counts it keeps in a Map<string, int>. */
module Heroes {
  import opened Outcomes
  import opened Nodes
  import opened Maps

  datatype Hero = Hero(name: string, inventory: Map<int>)

  /** A constructed hero: a non-empty name and a well-formed inventory. */
  predicate WellFormed(h: Hero)
  {
    h.name != [] && Valid(h.inventory)
  }

  /** The item counts the inventory holds. */
  function Stock(h: Hero): map<string, int>
  {
    Contents(h.inventory.head)
  }

  /** The count of `item`, an absent item counting as 0. */
  function Count(h: Hero, item: string): int
  {
    if item in Stock(h) then Stock(h)[item] else 0
  }

  /** Hero(name): an empty name is an invalid_argument. */
  function NewHero(name: string): (r: Result<Hero>)
    ensures name == [] ==> r == Err(InvalidArgument)
    ensures name != [] ==> r.Ok? && WellFormed(r.value) && r.value.name == name && Stock(r.value) == map[]
  {
    if name == [] then Err(InvalidArgument) else Ok(Hero(name, Empty()))
  }

  /** SetName: an empty name is an invalid_argument and the hero keeps its name. */
  function SetName(h: Hero, name: string): (r: Result<Hero>)
    requires WellFormed(h)
    ensures name == [] ==> r == Err(InvalidArgument)
    ensures name != [] ==> r.Ok? && WellFormed(r.value) && r.value.name == name && r.value.inventory == h.inventory
  {
    if name == [] then Err(InvalidArgument) else Ok(h.(name := name))
  }

  /** CollectItem: one more of `item`; a first one is inserted with count 1. */
  function CollectItem(h: Hero, item: string): (r: Hero)
    requires WellFormed(h)
    ensures WellFormed(r) && r.name == h.name
    ensures item !in Stock(h) ==> Stock(r) == Stock(h)[item := 1]
    ensures item in Stock(h) ==> Stock(r) == Stock(h)[item := Stock(h)[item] + 1]
  {
    match ValueAt(h.inventory, item)
    case Ok(current) => h.(inventory := Insert(h.inventory, item, current + 1))
    case Err(_) => h.(inventory := Insert(h.inventory, item, 1))
  }

  /** CanCraft: every listed requirement is held at least once; the scan
      stops at the first one that is missing or has a count below 1. */
  function CanCraft(h: Hero, requirements: seq<string>): (ok: bool)
    ensures ok <==> forall i :: 0 <= i < |requirements| ==>
                      requirements[i] in Stock(h) && Stock(h)[requirements[i]] >= 1
  {
    if requirements == [] then true
    else
      match ValueAt(h.inventory, requirements[0])
      case Err(_) => false
      case Ok(current) => if current < 1 then false else CanCraft(h, requirements[1..])
  }

  /** The loop of Craft: each listed requirement, in order, is read and
      written back one lower. */
  function Consume(inventory: Map<int>, requirements: seq<string>): (r: Map<int>)
    requires Valid(inventory)
    requires forall i :: 0 <= i < |requirements| ==> requirements[i] in Contents(inventory.head)
    ensures Valid(r)
    ensures Contents(r.head).Keys == Contents(inventory.head).Keys
    ensures forall x :: x in Contents(inventory.head) ==>
              Contents(r.head)[x] == Contents(inventory.head)[x] - multiset(requirements)[x]
    decreases |requirements|
  {
    if requirements == [] then inventory
    else
      var item := requirements[0];
      var current := ValueAt(inventory, item).value;
      assert requirements == [item] + requirements[1..];
      Consume(Insert(inventory, item, current - 1), requirements[1..])
  }

  /** Craft: a runtime_error unless CanCraft holds; otherwise every listed
      requirement is decremented once per occurrence, then the result is
      collected. */
  function Craft(h: Hero, result: string, requirements: seq<string>): (r: Result<Hero>)
    requires WellFormed(h)
    ensures !CanCraft(h, requirements) ==> r == Err(RuntimeError)
    ensures CanCraft(h, requirements) ==>
              && r.Ok? && WellFormed(r.value) && r.value.name == h.name
              && Stock(r.value).Keys == Stock(h).Keys + {result}
              && forall x :: x in Stock(r.value) ==>
                   Stock(r.value)[x] == Count(h, x) - multiset(requirements)[x] + (if x == result then 1 else 0)
  {
    if !CanCraft(h, requirements) then Err(RuntimeError)
    else
      var consumed := h.(inventory := Consume(h.inventory, requirements));
      Ok(CollectItem(consumed, result))
  }

  /** CanCraft checks each requirement for a count of at least 1 but not for
      how often it is listed: one wood covers a recipe that lists wood twice,
      and crafting then leaves -1 wood. */
  lemma DuplicateRequirementOverdraws()
    ensures var h := Hero("Ann", Insert(Empty(), "wood", 1));
            && CanCraft(h, ["wood", "wood"])
            && Craft(h, "plank", ["wood", "wood"]).Ok?
            && Stock(Craft(h, "plank", ["wood", "wood"]).value)["wood"] == -1
  {
    var h := Hero("Ann", Insert(Empty(), "wood", 1));
    assert Stock(h) == map["wood" := 1];
    assert multiset(["wood", "wood"])["wood"] == 2;
  }
}
