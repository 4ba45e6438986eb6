/** A location of the game world with its exits to the north, east, south
    and west. GetID, GetName and GetDesc are the destructors `id`, `name`
    and `desc`. */
module Areas {

  datatype Direction = N | E | S | W

  /** Position of a direction in the exit array. */
  function Index(d: Direction): nat
  {
    match d
    case N => 0
    case E => 1
    case S => 2
    case W => 3
  }

  /** The letter a direction is listed and entered by. */
  function Letter(d: Direction): char
  {
    match d
    case N => 'N'
    case E => 'E'
    case S => 'S'
    case W => 'W'
  }

  /** `exits` is m_direction: the id of the neighbouring area per
      direction, -1 for no exit. */
  datatype Area = Area(id: int, name: string, desc: string, exits: seq<int>)

  predicate WellFormed(a: Area)
  {
    |a.exits| == 4
  }

  /** The area an exit leads to, or -1. */
  function Target(a: Area, d: Direction): int
    requires WellFormed(a)
  {
    a.exits[Index(d)]
  }

  /** Area constructor. */
  function NewArea(id: int, name: string, desc: string, north: int, east: int, south: int, west: int): (a: Area)
    ensures WellFormed(a) && a.id == id && a.name == name && a.desc == desc
    ensures Target(a, N) == north && Target(a, E) == east
    ensures Target(a, S) == south && Target(a, W) == west
  {
    Area(id, name, desc, [north, east, south, west])
  }

  /** toupper in the "C" locale: only 'a'..'z' change. */
  function ToUpper(c: char): char
  {
    if 'a' <= c <= 'z' then (c as int - 32) as char else c
  }

  /** The lower-case letter, used to type an exit back. */
  function ToLower(c: char): char
  {
    if 'A' <= c <= 'Z' then (c as int + 32) as char else c
  }

  /** CheckDirection: the neighbour in the direction a letter names, in
      either case; -1 for any other character. */
  function CheckDirection(a: Area, c: char): (r: int)
    requires WellFormed(a)
    ensures c == 'N' || c == 'n' ==> r == Target(a, N)
    ensures c == 'E' || c == 'e' ==> r == Target(a, E)
    ensures c == 'S' || c == 's' ==> r == Target(a, S)
    ensures c == 'W' || c == 'w' ==> r == Target(a, W)
    ensures c !in "NnEeSsWw" ==> r == -1
  {
    match ToUpper(c)
    case 'N' => Target(a, N)
    case 'E' => Target(a, E)
    case 'S' => Target(a, S)
    case 'W' => Target(a, W)
    case _ => -1
  }

  /** The exits PrintArea lists: the directions with a neighbour, in the
      order N, E, S, W. */
  function ListedExits(a: Area): (ds: seq<Direction>)
    requires WellFormed(a)
    ensures forall d :: d in ds <==> Target(a, d) != -1
    ensures forall i, j :: 0 <= i < j < |ds| ==> Index(ds[i]) < Index(ds[j])
  {
    (if Target(a, N) != -1 then [N] else [])
    + (if Target(a, E) != -1 then [E] else [])
    + (if Target(a, S) != -1 then [S] else [])
    + (if Target(a, W) != -1 then [W] else [])
  }

  /** Each direction written as its letter followed by a space. */
  function Spell(ds: seq<Direction>): (s: string)
    ensures |s| == 2 * |ds|
    ensures forall i :: 0 <= i < |ds| ==> s[2 * i] == Letter(ds[i]) && s[2 * i + 1] == ' '
  {
    if ds == [] then ""
    else [Letter(ds[0]), ' '] + Spell(ds[1..])
  }

  /** The text after "Possible Exits: " in PrintArea. */
  function ExitsText(a: Area): (s: string)
    requires WellFormed(a)
    ensures |s| == 2 * |ListedExits(a)|
    ensures forall i :: 0 <= i < |ListedExits(a)| ==>
              s[2 * i] == Letter(ListedExits(a)[i]) && s[2 * i + 1] == ' '
  {
    Spell(ListedExits(a))
  }

  /** Every listed exit letter, typed back in either case, leads where the
      exit goes. */
  lemma ListedLettersLeadToTargets(a: Area, i: nat)
    requires WellFormed(a) && i < |ListedExits(a)|
    ensures CheckDirection(a, ExitsText(a)[2 * i]) == Target(a, ListedExits(a)[i]) != -1
    ensures CheckDirection(a, ToLower(ExitsText(a)[2 * i])) == Target(a, ListedExits(a)[i])
  {
    var d := ListedExits(a)[i];
    assert d in ListedExits(a);
    assert ExitsText(a)[2 * i] == Letter(d);
    match d
    case N => assert ToLower('N') == 'n';
    case E => assert ToLower('E') == 'e';
    case S => assert ToLower('S') == 's';
    case W => assert ToLower('W') == 'w';
  }
}
