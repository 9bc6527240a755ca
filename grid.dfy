/** The map grid of the global page (frontend/global.js): square ids, the snapped bounds of
    the drawn grid, the colour derived from a username, and the two colour dictionaries the
    page fills from the square-ownership list. Coordinates are exact reals. */
module Grid {
  import opened Common

  /** The grid cell `(row, column)` holding the point, for cells of side `size`:
      `Math.floor(lat / size)` and `Math.floor(lng / size)`. */
  function Cell(lat: real, lng: real, size: real): (c: (int, int))
    requires size > 0.0
    ensures c.0 as real * size <= lat < c.0 as real * size + size
    ensures c.1 as real * size <= lng < c.1 as real * size + size
  {
    FloorBounds(lat, size);
    FloorBounds(lng, size);
    ((lat / size).Floor, (lng / size).Floor)
  }

  /** `Math.floor(v / size)` is the index of the cell of side `size` holding `v`. */
  lemma FloorBounds(v: real, size: real)
    requires size > 0.0
    ensures (v / size).Floor as real * size <= v < (v / size).Floor as real * size + size
  {
    FloorScaled(v / size, size, v);
  }

  /** The cell bound for a quotient `q` of `v` by `size`. */
  lemma FloorScaled(q: real, size: real, v: real)
    requires size > 0.0 && q * size == v
    ensures q.Floor as real * size <= v < q.Floor as real * size + size
  {
    var f := q.Floor as real;
    ScaleLe(f, q, size);
    ScaleLt(q, f + 1.0, size);
    AddOne(f, size);
  }

  lemma ScaleLe(a: real, b: real, c: real)
    requires a <= b && c > 0.0
    ensures a * c <= b * c
  {
    assert (b - a) * c >= 0.0;
  }

  lemma ScaleLt(a: real, b: real, c: real)
    requires a < b && c > 0.0
    ensures a * c < b * c
  {
    assert (b - a) * c > 0.0;
  }

  lemma AddOne(a: real, c: real)
    ensures (a + 1.0) * c == a * c + c
  {
  }

  /** The text of a cell: its two indices joined by `_`. */
  function CellId(c: (int, int)): string {
    IntToString(c.0) + "_" + IntToString(c.1)
  }

  /** `getSquareId(lat, lng, squareSize)`: the id holds one `_`, with the cell's row printed
      before it and its column after it. */
  function SquareId(lat: real, lng: real, size: real): (id: string)
    requires size > 0.0
    ensures '_' in id
    ensures forall k :: 0 <= k < |id| && id[k] == '_' ==>
      id[..k] == IntToString(Cell(lat, lng, size).0) && id[k + 1..] == IntToString(Cell(lat, lng, size).1)
  {
    var c := Cell(lat, lng, size);
    var a, b := IntToString(c.0), IntToString(c.1);
    NoSeparatorInNumeral(c.0, '_');
    NoSeparatorInNumeral(c.1, '_');
    var id := CellId(c);
    assert id == a + "_" + b;
    assert id[|a|] == '_';
    assert forall k :: 0 <= k < |a| ==> id[k] == a[k];
    assert forall k :: |a| < k < |id| ==> id[k] == b[k - |a| - 1];
    id
  }

  /** Splitting at the first `sep` recovers both parts when the left part holds no `sep`. */
  lemma SplitAtSeparator(x: string, y: string, x2: string, y2: string, sep: char)
    requires sep !in x && sep !in x2
    requires x + [sep] + y == x2 + [sep] + y2
    ensures x == x2 && y == y2
  {
    var s := x + [sep] + y;
    assert forall k :: 0 <= k < |x| ==> s[k] == x[k] != sep;
    assert forall k :: 0 <= k < |x2| ==> s[k] == x2[k] != sep;
    assert s[|x|] == sep && s[|x2|] == sep;
    assert |x| == |x2|;
    assert x == s[..|x|] && x2 == s[..|x2|];
    assert y == s[|x| + 1..] && y2 == s[|x2| + 1..];
  }

  /** Equal strings with a common prefix agree after it. */
  lemma DropPrefix(p: string, a: string, b: string)
    requires p + a == p + b
    ensures a == b
  {
    assert a == (p + a)[|p|..];
    assert b == (p + b)[|p|..];
  }

  /** A printed integer holds no character other than `-` and digits. */
  lemma NoSeparatorInNumeral(i: int, sep: char)
    requires sep != '-' && !('0' <= sep <= '9')
    ensures sep !in IntToString(i)
  {
  }

  /** Two points get the same square id exactly when they lie in the same cell. */
  lemma SquareIdIffSameCell(lat1: real, lng1: real, lat2: real, lng2: real, size: real)
    requires size > 0.0
    ensures SquareId(lat1, lng1, size) == SquareId(lat2, lng2, size) <==> Cell(lat1, lng1, size) == Cell(lat2, lng2, size)
  {
    var c1, c2 := Cell(lat1, lng1, size), Cell(lat2, lng2, size);
    if CellId(c1) == CellId(c2) {
      NoSeparatorInNumeral(c1.0, '_');
      NoSeparatorInNumeral(c2.0, '_');
      SplitAtSeparator(IntToString(c1.0), IntToString(c1.1), IntToString(c2.0), IntToString(c2.1), '_');
      IntToStringInjective(c1.0, c2.0);
      IntToStringInjective(c1.1, c2.1);
    }
  }

  /** The `k`-th grid line for squares of side `size`. */
  function GridLine(k: int, size: real): real {
    k as real * size
  }

  /** `Math.floor(v / size) * size`: the grid line at or below `v`. */
  function SnapDown(v: real, size: real): (r: real)
    requires size > 0.0
    ensures r <= v < r + size
    ensures exists k :: r == GridLine(k, size)
  {
    FloorBounds(v, size);
    var k := (v / size).Floor;
    assert k as real * size == GridLine(k, size);
    k as real * size
  }

  /** `Math.ceil(v / size) * size`: the grid line at or above `v`. */
  function SnapUp(v: real, size: real): (r: real)
    requires size > 0.0
    ensures r - size < v <= r
    ensures exists k :: r == GridLine(k, size)
  {
    var k := (-v / size).Floor;
    var below := k as real * size;
    FloorBounds(-v, size);
    assert below <= -v < below + size;
    assert -below == GridLine(-k, size);
    -below
  }

  /** The visible part of the map. */
  datatype Bounds = Bounds(south: real, west: real, north: real, east: real)

  /** The bounds the grid is drawn over: each side pushed outwards to the nearest grid line,
      by less than one square. */
  function SnapBounds(b: Bounds, size: real): (g: Bounds)
    requires size > 0.0
    ensures g.south <= b.south < g.south + size && g.west <= b.west < g.west + size
    ensures g.north - size < b.north <= g.north && g.east - size < b.east <= g.east
  {
    Bounds(SnapDown(b.south, size), SnapDown(b.west, size), SnapUp(b.north, size), SnapUp(b.east, size))
  }

  /** `char.charCodeAt(0)` for one element of `[...username]`: the character itself when it
      fits one UTF-16 code unit, otherwise the high surrogate of its pair. */
  function FirstCodeUnit(c: char): (u: nat)
    ensures u < 0x10000
  {
    var n := c as int;
    if n < 0x10000 then n else 0xD800 + (n - 0x10000) / 0x400
  }

  /** The sum the `reduce` of `getColorForUsername` computes. */
  function CodeUnitSum(s: string): nat {
    if s == [] then 0 else FirstCodeUnit(s[0]) + CodeUnitSum(s[1..])
  }

  /** The sum over `s` with the character at `i` removed. */
  lemma {:induction false} CodeUnitSumRemove(s: string, i: nat)
    requires i < |s|
    ensures CodeUnitSum(s) == FirstCodeUnit(s[i]) + CodeUnitSum(s[..i] + s[i + 1..])
  {
    if i == 0 {
      assert s[..0] + s[1..] == s[1..];
    } else {
      CodeUnitSumRemove(s[1..], i - 1);
      var rest := s[..i] + s[i + 1..];
      assert rest[0] == s[0];
      assert rest[1..] == s[1..][..i - 1] + s[1..][i..];
    }
  }

  /** Removing the element at `i` removes one occurrence of it. */
  lemma MultisetRemove(t: string, i: nat)
    requires i < |t|
    ensures multiset(t) == multiset(t[..i] + t[i + 1..]) + multiset{t[i]}
  {
    assert t == t[..i] + [t[i]] + t[i + 1..];
  }

  /** Taking the first character of `s` and a matching one out of `t` keeps the two equal as multisets. */
  lemma MultisetRemoveMatching(s: string, t: string, i: nat)
    requires s != [] && i < |t| && t[i] == s[0] && multiset(s) == multiset(t)
    ensures multiset(s[1..]) == multiset(t[..i] + t[i + 1..])
  {
    var a, b := multiset(s[1..]), multiset(t[..i] + t[i + 1..]);
    MultisetRemove(t, i);
    assert s == [s[0]] + s[1..];
    assert a + multiset{s[0]} == b + multiset{s[0]};
    forall x ensures a[x] == b[x] {
      assert (a + multiset{s[0]})[x] == (b + multiset{s[0]})[x];
    }
  }

  /** A position of `c`, which occurs in `t`. */
  lemma {:induction false} IndexOf(t: string, c: char) returns (i: nat)
    requires c in multiset(t)
    ensures i < |t| && t[i] == c
  {
    assert t == [t[0]] + t[1..];
    if t[0] == c {
      i := 0;
    } else {
      assert multiset(t) == multiset{t[0]} + multiset(t[1..]);
      var j := IndexOf(t[1..], c);
      i := j + 1;
    }
  }

  /** Reordering the characters of a username leaves the sum unchanged. */
  lemma {:induction false} CodeUnitSumPermutation(s: string, t: string)
    requires multiset(s) == multiset(t)
    ensures CodeUnitSum(s) == CodeUnitSum(t)
  {
    if s != [] {
      var i := IndexOf(t, s[0]);
      var rest := t[..i] + t[i + 1..];
      MultisetRemoveMatching(s, t, i);
      CodeUnitSumPermutation(s[1..], rest);
      CodeUnitSumRemove(t, i);
    } else {
      assert |multiset(t)| == 0;
    }
  }

  /** A colour in the `hsl()` notation. */
  datatype Hsl = Hsl(hue: int, saturation: int, lightness: int)

  /** The colour `getColorForUsername` chooses: a hue from the username, fixed saturation and lightness. */
  function HslForUsername(username: string): (c: Hsl)
    ensures 0 <= c.hue < 360 && c.hue == CodeUnitSum(username) % 360
    ensures c.saturation == 70 && c.lightness == 50
  {
    Hsl(CodeUnitSum(username) % 360, 70, 50)
  }

  /** `x`, the separator, then `y`. */
  function Joined(x: string, sep: char, y: string): string {
    x + [sep] + y
  }

  /** `hsl(<hue>, <saturation>%, <lightness>%)` */
  function HslText(c: Hsl): string {
    "hsl(" + Joined(IntToString(c.hue), ',',
      " " + Joined(IntToString(c.saturation), '%',
        ", " + Joined(IntToString(c.lightness), '%', ")")))
  }

  /** `getColorForUsername(username)`: `hsl(<hue>, 70%, 50%)` with the code-unit sum mod 360 as the hue. */
  function ColorForUsername(username: string): (c: string)
    ensures c == "hsl(" + IntToString(CodeUnitSum(username) % 360) + ", 70%, 50%)"
  {
    HslTextFixed(CodeUnitSum(username) % 360);
    HslText(HslForUsername(username))
  }

  lemma Numerals()
    ensures IntToString(70) == "70" && IntToString(50) == "50"
  {
    assert NatToString(7) == "7" && NatToString(5) == "5";
  }

  /** The text of a colour with saturation 70 and lightness 50. */
  lemma HslTextFixed(h: int)
    ensures HslText(Hsl(h, 70, 50)) == "hsl(" + IntToString(h) + ", 70%, 50%)"
  {
    Numerals();
    var l := Joined(IntToString(50), '%', ")");
    assert l == "50%)";
    var sl := Joined(IntToString(70), '%', ", " + l);
    assert sl == "70%, 50%)";
    var tail := " " + sl;
    assert [','] + tail == ", 70%, 50%)";
    var x := IntToString(h);
    assert Joined(x, ',', tail) == x + ", 70%, 50%)";
    assert HslText(Hsl(h, 70, 50)) == "hsl(" + (x + ", 70%, 50%)");
  }

  /** A printed integer followed by a separator it cannot contain splits back uniquely. */
  lemma SplitNumeral(a: int, b: int, sep: char, y: string, y2: string)
    requires sep != '-' && !('0' <= sep <= '9')
    requires Joined(IntToString(a), sep, y) == Joined(IntToString(b), sep, y2)
    ensures a == b && y == y2
  {
    NoSeparatorInNumeral(a, sep);
    NoSeparatorInNumeral(b, sep);
    SplitAtSeparator(IntToString(a), y, IntToString(b), y2, sep);
    IntToStringInjective(a, b);
  }

  /** The colour text names its colour: different colours print differently. */
  lemma HslTextInjective(a: Hsl, b: Hsl)
    requires HslText(a) == HslText(b)
    ensures a == b
  {
    var la, lb := Joined(IntToString(a.lightness), '%', ")"), Joined(IntToString(b.lightness), '%', ")");
    var sa, sb := Joined(IntToString(a.saturation), '%', ", " + la), Joined(IntToString(b.saturation), '%', ", " + lb);
    DropPrefix("hsl(", Joined(IntToString(a.hue), ',', " " + sa), Joined(IntToString(b.hue), ',', " " + sb));
    SplitNumeral(a.hue, b.hue, ',', " " + sa, " " + sb);
    DropPrefix(" ", sa, sb);
    SplitNumeral(a.saturation, b.saturation, '%', ", " + la, ", " + lb);
    DropPrefix(", ", la, lb);
    SplitNumeral(a.lightness, b.lightness, '%', ")", ")");
  }

  /** Usernames that are anagrams of each other get the same colour; two usernames get the
      same colour exactly when their code-unit sums agree modulo 360. */
  lemma ColorForUsernameFacts(u: string, v: string)
    ensures multiset(u) == multiset(v) ==> ColorForUsername(u) == ColorForUsername(v)
    ensures ColorForUsername(u) == ColorForUsername(v) <==> CodeUnitSum(u) % 360 == CodeUnitSum(v) % 360
  {
    if multiset(u) == multiset(v) {
      CodeUnitSumPermutation(u, v);
    }
    if ColorForUsername(u) == ColorForUsername(v) {
      HslTextInjective(HslForUsername(u), HslForUsername(v));
    }
  }

  /** One element of the square-ownership list; `color` may be absent. */
  datatype Square = Square(squareId: string, username: string, color: Option<string>)

  /** The colour a username gets when first seen: `square.color || getColorForUsername(...)`. */
  function InitialColor(sq: Square): (c: string)
    ensures c != ""
    ensures !Falsy(sq.color) ==> c == sq.color.value
    ensures Falsy(sq.color) ==> c == ColorForUsername(sq.username)
  {
    if !Falsy(sq.color) then sq.color.value else ColorForUsername(sq.username)
  }

  /** The names every `{}` object inherits from `Object.prototype`. */
  const PrototypeMembers: set<string> := {
    "constructor", "hasOwnProperty", "isPrototypeOf", "propertyIsEnumerable", "toLocaleString",
    "toString", "valueOf", "__defineGetter__", "__defineSetter__", "__lookupGetter__",
    "__lookupSetter__", "__proto__"}

  /** A value the dictionaries hold or hand out: a colour text, or the inherited member of
      that name (a function, or `Object.prototype` itself for `__proto__`). */
  datatype Paint = Colour(css: string) | Inherited(member: string)

  /** `dict[key]` on a `{}` object whose own entries are `m`: the own entry, else the
      inherited member of that name, else `undefined` (`None`). */
  function Lookup(m: map<string, Paint>, key: string): Option<Paint> {
    if key in m then Some(m[key]) else if key in PrototypeMembers then Some(Inherited(key)) else None
  }

  /** The value is truthy: an inherited member, or a non-empty colour text. */
  predicate Truthy(v: Option<Paint>) {
    v.Some? && (v.value.Inherited? || v.value.css != "")
  }

  /** The two dictionaries the page keeps (their own entries): username to colour, square
      id to colour. */
  datatype ColorMaps = ColorMaps(userColors: map<string, Paint>, colorMap: map<string, Paint>)

  /** `userColors[username]` is truthy, so `populateColorMap` leaves it alone. */
  predicate HasColor(m: ColorMaps, username: string) {
    Truthy(Lookup(m.userColors, username))
  }

  /** One iteration of the `forEach` in `populateColorMap`. */
  function Step(m: ColorMaps, sq: Square): (m': ColorMaps)
    ensures HasColor(m', sq.username)
    ensures sq.squareId in m'.colorMap && Lookup(m'.userColors, sq.username) == Some(m'.colorMap[sq.squareId])
    ensures HasColor(m, sq.username) ==> m'.userColors == m.userColors
    ensures !HasColor(m, sq.username) ==> m'.userColors == m.userColors[sq.username := Colour(InitialColor(sq))]
    ensures forall k :: k in m.colorMap && k != sq.squareId ==> k in m'.colorMap && m'.colorMap[k] == m.colorMap[k]
  {
    var users := if HasColor(m, sq.username) then m.userColors else m.userColors[sq.username := Colour(InitialColor(sq))];
    ColorMaps(users, m.colorMap[sq.squareId := Lookup(users, sq.username).value])
  }

  /** The square ids of a list. */
  ghost function SquareIds(squares: seq<Square>): set<string> {
    set sq | sq in squares :: sq.squareId
  }

  /** The dictionaries after `populateColorMap(squares)`, starting from `m`: every listed
      owner ends with a truthy colour. */
  function Populate(m: ColorMaps, squares: seq<Square>): (r: ColorMaps)
    ensures forall i :: 0 <= i < |squares| ==> HasColor(r, squares[i].username)
  {
    if squares == [] then m
    else
      var prefix := squares[..|squares| - 1];
      var last := squares[|squares| - 1];
      var before := Populate(m, prefix);
      var after := Step(before, last);
      assert forall i :: 0 <= i < |prefix| ==> HasColor(before, prefix[i].username);
      assert forall u :: HasColor(before, u) ==> HasColor(after, u);
      after
  }

  /** The colour map gains exactly the listed square ids. */
  lemma {:induction false} PopulateSquareIds(m: ColorMaps, squares: seq<Square>)
    ensures Populate(m, squares).colorMap.Keys == m.colorMap.Keys + SquareIds(squares)
  {
    if squares != [] {
      var prefix := squares[..|squares| - 1];
      assert squares == prefix + [squares[|squares| - 1]];
      assert SquareIds(squares) == SquareIds(prefix) + {squares[|squares| - 1].squareId};
      PopulateSquareIds(m, prefix);
    }
  }

  /** Populating with `a` and then `b` is populating with `a + b`. */
  lemma {:induction false} PopulateAppend(m: ColorMaps, a: seq<Square>, b: seq<Square>)
    ensures Populate(m, a + b) == Populate(Populate(m, a), b)
  {
    if b == [] {
      assert a + b == a;
    } else {
      assert (a + b)[..|a + b| - 1] == a + b[..|b| - 1];
      assert (a + b)[|a + b| - 1] == b[|b| - 1];
      PopulateAppend(m, a, b[..|b| - 1]);
    }
  }

  /** Populating never removes a key and never changes what a username with a truthy
      colour looks up to. */
  lemma {:induction false} PopulateKeepsColors(m: ColorMaps, squares: seq<Square>)
    ensures m.userColors.Keys <= Populate(m, squares).userColors.Keys
    ensures m.colorMap.Keys <= Populate(m, squares).colorMap.Keys
    ensures forall u :: HasColor(m, u) ==> Lookup(Populate(m, squares).userColors, u) == Lookup(m.userColors, u)
  {
    if squares != [] {
      PopulateKeepsColors(m, squares[..|squares| - 1]);
    }
  }

  /** A username no square mentions keeps its entry in `userColors` as it was. */
  lemma {:induction false} PopulateUnmentionedUser(m: ColorMaps, squares: seq<Square>, u: string)
    requires forall i :: 0 <= i < |squares| ==> squares[i].username != u
    ensures u in Populate(m, squares).userColors <==> u in m.userColors
    ensures u in m.userColors ==> Populate(m, squares).userColors[u] == m.userColors[u]
  {
    if squares != [] {
      PopulateUnmentionedUser(m, squares[..|squares| - 1], u);
    }
  }

  /** A square id no square mentions keeps its entry in `colorMap` as it was. */
  lemma {:induction false} PopulateUnmentionedSquare(m: ColorMaps, squares: seq<Square>, id: string)
    requires forall i :: 0 <= i < |squares| ==> squares[i].squareId != id
    ensures id in Populate(m, squares).colorMap <==> id in m.colorMap
    ensures id in m.colorMap ==> Populate(m, squares).colorMap[id] == m.colorMap[id]
  {
    if squares != [] {
      PopulateUnmentionedSquare(m, squares[..|squares| - 1], id);
    }
  }

  /** The colour of a username whose lookup was falsy is the initial colour of its first square. */
  lemma FirstColorWins(m: ColorMaps, squares: seq<Square>, i: nat)
    requires i < |squares| && !HasColor(m, squares[i].username)
    requires forall j :: 0 <= j < i ==> squares[j].username != squares[i].username
    ensures squares[i].username in Populate(m, squares).userColors
    ensures Populate(m, squares).userColors[squares[i].username] == Colour(InitialColor(squares[i]))
  {
    var u := squares[i].username;
    var before := Populate(m, squares[..i]);
    PopulateUnmentionedUser(m, squares[..i], u);
    assert Lookup(before.userColors, u) == Lookup(m.userColors, u);
    var after := Step(before, squares[i]);
    assert after.userColors[u] == Colour(InitialColor(squares[i]));
    assert squares[..i + 1][..i] == squares[..i];
    assert Populate(m, squares[..i + 1]) == after;
    assert squares == squares[..i + 1] + squares[i + 1..];
    PopulateAppend(m, squares[..i + 1], squares[i + 1..]);
    PopulateKeepsColors(after, squares[i + 1..]);
  }

  /** Every square id in the list ends up with what the owner of its last square looks up to. */
  lemma LastSquareWins(m: ColorMaps, squares: seq<Square>, i: nat)
    requires i < |squares|
    requires forall j :: i < j < |squares| ==> squares[j].squareId != squares[i].squareId
    ensures squares[i].squareId in Populate(m, squares).colorMap
    ensures Lookup(Populate(m, squares).userColors, squares[i].username)
         == Some(Populate(m, squares).colorMap[squares[i].squareId])
  {
    var sq := squares[i];
    var after := Populate(m, squares[..i + 1]);
    assert squares[..i + 1][..i] == squares[..i];
    assert after == Step(Populate(m, squares[..i]), sq);
    assert HasColor(after, sq.username);
    assert Lookup(after.userColors, sq.username) == Some(after.colorMap[sq.squareId]);
    var tail := squares[i + 1..];
    assert squares == squares[..i + 1] + tail;
    PopulateAppend(m, squares[..i + 1], tail);
    var final := Populate(after, tail);
    assert final == Populate(m, squares);
    PopulateUnmentionedSquare(after, tail, sq.squareId);
    assert final.colorMap[sq.squareId] == after.colorMap[sq.squareId];
    PopulateKeepsColors(after, tail);
    assert Lookup(final.userColors, sq.username) == Lookup(after.userColors, sq.username);
  }

  /** A username that names an inherited member and has no own entry never gets one. */
  lemma {:induction false} PopulateInheritedUser(m: ColorMaps, squares: seq<Square>, u: string)
    requires u in PrototypeMembers && u !in m.userColors
    ensures u !in Populate(m, squares).userColors
  {
    if squares != [] {
      PopulateInheritedUser(m, squares[..|squares| - 1], u);
    }
  }

  /** A square owned last by a user called like an inherited member (`constructor`,
      `toString`, ...) is mapped to that member, not to a colour. */
  lemma InheritedOwnerSquare(m: ColorMaps, squares: seq<Square>, i: nat)
    requires i < |squares| && squares[i].username in PrototypeMembers && squares[i].username !in m.userColors
    requires forall j :: i < j < |squares| ==> squares[j].squareId != squares[i].squareId
    ensures squares[i].squareId in Populate(m, squares).colorMap
    ensures Populate(m, squares).colorMap[squares[i].squareId] == Inherited(squares[i].username)
  {
    PopulateInheritedUser(m, squares, squares[i].username);
    LastSquareWins(m, squares, i);
  }

  /** The page's two dictionaries, updated in place. */
  class ColorState {
    var userColors: map<string, Paint>
    var colorMap: map<string, Paint>

    constructor ()
      ensures userColors == map[] && colorMap == map[]
    {
      userColors := map[];
      colorMap := map[];
    }

    /** `populateColorMap(squares)` */
    method PopulateColorMap(squares: seq<Square>)
      modifies this
      ensures ColorMaps(userColors, colorMap) == Populate(old(ColorMaps(userColors, colorMap)), squares)
    {
      ghost var start := ColorMaps(userColors, colorMap);
      var i := 0;
      while i < |squares|
        invariant 0 <= i <= |squares|
        invariant ColorMaps(userColors, colorMap) == Populate(start, squares[..i])
      {
        var sq := squares[i];
        if !Truthy(Lookup(userColors, sq.username)) {
          userColors := userColors[sq.username := Colour(InitialColor(sq))];
        }
        colorMap := colorMap[sq.squareId := Lookup(userColors, sq.username).value];
        assert squares[..i + 1][..i] == squares[..i];
        i := i + 1;
      }
      assert squares[..i] == squares;
    }
  }
}
