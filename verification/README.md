# Ordered map, hero inventory and area exits

This project models the core of a small text adventure: the hand-written
ordered associative container `Map<K,V>` it is built on, the node chain that
stores it, and the two pieces of game logic that are pure transformations of
such maps. These are the hero's inventory (collecting and crafting items) and
an area's exit lookup.

- `Nodes` (node.dfy): `Node<K,V>` as an immutable chain
  `Chain<V> = Null | Node(key, value, next)`. `Null` is the null pointer. The
  accessors GetKey, GetValue and GetNext are the datatype's destructors. The
  chain has three views: `KeySeq` (the keys front to back), `Entries` (the
  pairs front to back) and `Contents` (the mapping a front-to-back scan sees).
- `KeyOrder` (key_order.dfy): keys are strings. They are ordered the way
  `std::string`'s `operator<` orders them: lexicographically by character code,
  with a proper prefix first. The module proves this is a strict total order.
- `Maps` (maps.dfy): `Map(head, size)` with the class invariant `Valid`. The
  invariant says the chain is strictly ascending and `size` is its length.
  Insert, Update, GetSize, IsEmpty and Display need the invariant; Insert
  and Update keep it; Empty and Clear establish it; the lookups At and
  ValueAt and the line rendering need nothing. `Insert` follows the
  source's five cases. The scan of cases 4 and 5 is the recursive
  `SpliceAfter`. Two ascending chains with the same contents are equal
  (`Canonical`). That is why a copy made by re-insertion equals its source.
- `Heroes` (hero.dfy): a hero's name and its `Map<int>` inventory, with
  `CollectItem`, `CanCraft` and `Craft`.
- `Areas` (area.dfy): an area's id, name, description and four exits, with
  `CheckDirection` and the exit listing of `PrintArea`.
- `Outcomes` (outcomes.dfy): `Result<T>` stands in for the exceptions thrown
  (`out_of_range`, `invalid_argument`, `runtime_error`). In the source these are
  always thrown before anything is mutated. So a failing operation returns
  `Err`, and the caller keeps its previous value unchanged.

At the head, Insert tests `<` before `==`. In the scan it tests `==` before
`<`. The model keeps both orders, and they give the same result.

## Model

| member | source | states |
|---|---|---|
| KeyOrder.LessTransitive | proj5/Maps.cpp:122 | the string order used to place keys is transitive |
| KeyOrder.LessTrichotomy | proj5/Maps.cpp:122-146 | any two keys are equal or one is below the other, so each step of the insert scan takes exactly one branch |
| Nodes.NewNode | proj5/Node.cpp:19 | a new node holds the given key and value and links to the given chain, which defaults to the end of the chain |
| Nodes.SetValue | proj5/Node.cpp:45-47 | only the value changes; key, link, key order and length are unchanged, and the represented mapping changes at that key only |
| Nodes.SetNext | proj5/Node.cpp:52-54 | only the link changes; key and value are kept and the chain's keys become this key followed by the new tail's keys |
| Nodes.Render | proj5/Node.cpp:60-63 | the rendering is the key, then ':', then the value's text |
| Nodes.RenderSplits | proj5/Node.cpp:60-63 | when the key has no ':', splitting a rendering at its first ':' gives back the key and the value's text |
| Maps.Empty | proj5/Maps.cpp:18 | the new map is valid, has size 0 and maps nothing |
| Maps.AscendingPairwise | proj5/Maps.cpp:111-158 | the keys of an ascending chain are strictly ascending between any two positions, so they are pairwise distinct |
| Maps.LengthIsCount | proj5/Maps.cpp:213-214 | in an ascending chain the number of nodes equals the number of distinct keys mapped |
| Maps.Canonical | proj5/Maps.cpp:111-158 | two ascending chains that represent the same mapping are identical, so the chain does not depend on insertion order |
| Maps.FindNode | proj5/Maps.cpp:76-83 | the scan finds a node exactly when the key is mapped; the node found carries that key and its value; otherwise it is out_of_range |
| Maps.At | proj5/Maps.cpp:75-84 | a present key yields its node with the mapped value; an absent key yields out_of_range |
| Maps.ValueAt | proj5/Maps.cpp:65-68 | a present key yields its value; an absent key yields out_of_range |
| Maps.GetSize | proj5/Maps.cpp:90-92 | the stored size equals the number of distinct keys and the length of the chain |
| Maps.IsEmpty | proj5/Maps.cpp:99-101 | true exactly when the chain has no node, which is exactly when the map maps nothing |
| Maps.SpliceAfter | proj5/Maps.cpp:136-157 | the scan after a smaller key keeps the chain ascending and maps the key to the new value; it adds a node exactly when the key was absent, growing the length by one, and otherwise leaves the key sequence as it was |
| Maps.Insert | proj5/Maps.cpp:111-158 | the result is valid; its mapping is the old one with key set to value, so ValueAt then yields the new value and every other key's ValueAt is unchanged; the size grows by one for an absent key; for a present key the size and the key order stay the same |
| Maps.SetValueAt | proj5/Maps.cpp:166-167 | overwriting through the node found by At changes that key's value only and keeps the key sequence, so the chain stays ascending |
| Maps.Update | proj5/Maps.cpp:165-168 | an absent key is out_of_range with the map unchanged; for a present key only that value changes (ValueAt then yields it), and size and key order stay the same |
| Maps.Clear | proj5/Maps.cpp:190-199 | the result is valid and empty and maps nothing; clearing an already empty map leaves it as it was |
| Maps.Lines | proj5/Maps.cpp:203-210 | one line per node, and line i is the "key:value" text of the i-th pair |
| Maps.Display | proj5/Maps.cpp:176-182 | as many lines as the size; line i renders the i-th pair; the keys of the lines are strictly ascending |
| Maps.InsertEach | proj5/Maps.cpp:33-37 | inserting every pair of the source, front to back, gives the target's mapping overridden by the source's |
| Maps.Copy | proj5/Maps.cpp:32-38 | the copy is the same chain with the same size as the source |
| Maps.Assign | proj5/Maps.cpp:46-56 | after assignment the target equals the source, both for self-assignment and for clear-then-refill |
| Maps.DisplayDeterminedByContents | proj5/Maps.cpp:176-182 | two valid maps holding the same pairs display identical lines |
| Maps.UpdateIsInsertWhenPresent | proj5/Maps.cpp:165-168 | for a present key, Update gives exactly the map Insert gives |
| Maps.InsertIdempotent | proj5/Maps.cpp:130-144 | inserting a pair that was just inserted changes nothing |
| Maps.InsertCommutes | proj5/Maps.cpp:111-158 | inserts of two different keys give the same map in either order |
| Heroes.NewHero | proj5/Hero.cpp:10-14 | an empty name is invalid_argument; otherwise the hero has that name and an empty inventory |
| Heroes.SetName | proj5/Hero.cpp:35-40 | an empty name is invalid_argument; otherwise the name is replaced and the inventory kept |
| Heroes.CollectItem | proj5/Hero.cpp:57-64 | an absent item gets count 1, a present item gets its old count plus 1, and every other count is unchanged |
| Heroes.CanCraft | proj5/Hero.cpp:71-82 | true exactly when every listed requirement is present with a count of at least 1, so an empty list is craftable |
| Heroes.Consume | proj5/Hero.cpp:96-99 | each item's count goes down by the number of times the list names it; the set of items is unchanged |
| Heroes.Craft | proj5/Hero.cpp:91-101 | when CanCraft fails the result is runtime_error; otherwise each count becomes the old count, minus its occurrences in the list, plus one for the result, and the items are the old ones plus the result |
| Heroes.DuplicateRequirementOverdraws | proj5/Hero.cpp:71-101 | a single wood passes the check for a recipe that lists wood twice, and crafting leaves -1 wood |
| Areas.NewArea | proj5/Area.cpp:14-20 | the area stores its id, name and description, and its exits in the order north, east, south, west |
| Areas.CheckDirection | proj5/Area.cpp:51-58 | 'N'/'n', 'E'/'e', 'S'/'s' and 'W'/'w' give that direction's stored neighbour; any other character gives -1 |
| Areas.ListedExits | proj5/Area.cpp:68-71 | the listed directions are exactly those whose target is not -1, in N, E, S, W order |
| Areas.ExitsText | proj5/Area.cpp:66-73 | the exit text is each listed direction's letter followed by a space, in the listed order |
| Areas.ListedLettersLeadToTargets | proj5/Area.cpp:51-71 | a listed exit letter, in either case, leads through CheckDirection to that exit's neighbour, which is not -1 |

## Left out

- Heap management is not modelled: `new`, `delete`, the destructor `~Map` and node release in `Clear`. Chains are immutable values, so leaks, double frees and dangling links cannot be stated.
- Pointer identity is not modelled. The self-assignment test `this != &other` of `operator=` becomes the `aliased` parameter of `Maps.Assign`.
- The Map template is only modelled with string keys. These are the keys the game uses, with std::string's order. Values are generic, and their textual form is a `show` function given to the rendering operations.
- Maps.Insert: the size is an unbounded integer. The source's `m_size` is a 32-bit `int`, and its overflow after 2^31 insertions is not modelled.
- Heroes.CollectItem: counts are unbounded integers. Overflow of the `int` counts in CollectItem and Craft is not modelled.
- Characters are Dafny's Unicode characters. `toupper` is modelled as the "C" locale mapping, which changes only 'a'..'z'.
- Console output is not modelled: `Hero::DisplayInventory`, the success message of `Craft`, and the stream side of `Map::Display`, `operator<<` and `PrintArea`. Only the ordered lines and the exit text are modelled. The name and description lines of `PrintArea` are plain field output.
- `Hero::Gather`, `Raw`, `Natural`, `Food` and `Hunt` are not modelled. They draw from the global `rand()` generator and print to the console.
- Trivial accessors are datatype destructors: `Hero::GetName`, `Area::GetID`/`GetName`/`GetDesc` and `Node::GetKey`/`GetValue`/`GetNext`. `~Hero` does nothing.
- Item.cpp is not part of this model. It only holds a name and a list, with the same empty-name check as the hero.
