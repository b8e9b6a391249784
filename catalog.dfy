/**
 * The read-only insect catalog of the game (the `InsectType` class and the
 * dictionary built by `InitializeInsectTypes`), the level-to-kind binding of
 * `SwitchToGame`, the 40/40/20 threshold choice of `RandomizeInsect`, and the
 * kind lookup `GetCurrentInsectType`.
 */
module Catalog {
  import opened Wrappers

  datatype InsectKind = Cockroach | Comar | Fly

  /** A catalog entry: image asset, movement interval in ms, endless time bonus in s. */
  datatype InsectType = InsectType(imagePath: string, speed: int, timeBonus: int)

  /** The dictionary's keys in insertion order, which is the order it enumerates them. */
  const Kinds: seq<InsectKind> := [Cockroach, Comar, Fly]

  /** The dictionary key of a kind. */
  function Key(k: InsectKind): string
  {
    match k
    case Cockroach => "cockroach"
    case Comar => "comar"
    case Fly => "fly"
  }

  /** The entry `insectTypes[Key(k)]`. */
  function TypeOf(k: InsectKind): (t: InsectType)
    ensures t.speed > 0 && t.timeBonus > 0
    ensures t.imagePath == "img/" + Key(k) + ".png"
  {
    match k
    case Cockroach => InsectType("img/cockroach.png", 1600, 1)
    case Comar => InsectType("img/comar.png", 800, 2)
    case Fly => InsectType("img/fly.png", 600, 3)
  }

  /** The faster the kind, the shorter its movement interval. */
  lemma SpeedsOrdered()
    ensures TypeOf(Fly).speed < TypeOf(Comar).speed < TypeOf(Cockroach).speed
    ensures TypeOf(Cockroach).timeBonus < TypeOf(Comar).timeBonus < TypeOf(Fly).timeBonus
  {
  }

  /** The kind a timed level is played with. */
  function KindForLevel(level: int): (k: InsectKind)
    ensures k == Cockroach <==> level == 1
    ensures k == Comar <==> level == 2
    ensures k == Fly <==> level != 1 && level != 2
  {
    if level == 1 then Cockroach else if level == 2 then Comar else Fly
  }

  /** The kind `RandomizeInsect` picks for a draw of `random.Next(100)`. */
  function KindForDraw(draw: int): (k: InsectKind)
    requires 0 <= draw < 100
    ensures k == Cockroach <==> draw < 40
    ensures k == Comar <==> 40 <= draw < 80
    ensures k == Fly <==> 80 <= draw
  {
    if draw < 40 then Cockroach else if draw < 80 then Comar else Fly
  }

  /** The integers in [lo, hi). */
  function IntRange(lo: int, hi: int): (s: set<int>)
    ensures forall r :: r in s <==> lo <= r < hi
    decreases hi - lo
  {
    if hi <= lo then {} else IntRange(lo, hi - 1) + {hi - 1}
  }

  lemma {:induction false} IntRangeSize(lo: int, hi: int)
    requires lo <= hi
    ensures |IntRange(lo, hi)| == hi - lo
    decreases hi - lo
  {
    if lo < hi {
      IntRangeSize(lo, hi - 1);
      assert hi - 1 !in IntRange(lo, hi - 1);
    }
  }

  /** The draws of `random.Next(100)` that select kind `k`. */
  function DrawsFor(k: InsectKind): set<int>
  {
    set r | r in IntRange(0, 100) && KindForDraw(r) == k
  }

  lemma {:induction false} DrawsForRange(k: InsectKind, lo: int, hi: int)
    requires 0 <= lo <= hi <= 100
    requires forall r | 0 <= r < 100 :: KindForDraw(r) == k <==> lo <= r < hi
    ensures |DrawsFor(k)| == hi - lo
  {
    assert DrawsFor(k) == IntRange(lo, hi);
    IntRangeSize(lo, hi);
  }

  /**
   * Of the 100 equally likely draws, exactly 40 give a cockroach, 40 a
   * mosquito and 20 a fly: the 40/40/20 split of `RandomizeInsect`.
   */
  lemma DrawSplit()
    ensures |DrawsFor(Cockroach)| == 40
    ensures |DrawsFor(Comar)| == 40
    ensures |DrawsFor(Fly)| == 20
  {
    DrawsForRange(Cockroach, 0, 40);
    DrawsForRange(Comar, 40, 80);
    DrawsForRange(Fly, 80, 100);
  }

  /** `t` occurs in `s` starting at index `i`. */
  predicate OccursAt(s: string, t: string, i: int)
  {
    0 <= i <= |s| - |t| && s[i..i + |t|] == t
  }

  /** Ordinal `string.Contains`: `t` occurs somewhere in `s`. */
  predicate Contains(s: string, t: string)
  {
    exists i | 0 <= i <= |s| :: OccursAt(s, t, i)
  }

  /** Every character of a contained string occurs in the containing one. */
  lemma ContainsChars(s: string, t: string, c: char)
    requires Contains(s, t) && c in t
    ensures c in s
  {
    var i :| 0 <= i <= |s| && OccursAt(s, t, i);
    var j :| 0 <= j < |t| && t[j] == c;
    assert s[i + j] == s[i..i + |t|][j];
  }

  /** The first kind of `kinds` whose key occurs in `location`. */
  function FirstKeyIn(kinds: seq<InsectKind>, location: string): (r: Option<InsectKind>)
    ensures r.Some? ==> r.value in kinds && Contains(location, Key(r.value))
    ensures r.None? <==> forall k | k in kinds :: !Contains(location, Key(k))
  {
    if |kinds| == 0 then None
    else if Contains(location, Key(kinds[0])) then Some(kinds[0])
    else FirstKeyIn(kinds[1..], location)
  }

  /**
   * `GetCurrentInsectType`: scans the catalog keys for one contained in the
   * picture's `ImageLocation` and falls back to the cockroach. `hasImage`
   * stands for `insectPicture.Image != null`, `imageLocation` for
   * `insectPicture.ImageLocation` (None when null).
   */
  function GetCurrentInsectType(hasImage: bool, imageLocation: Option<string>): (k: InsectKind)
    ensures !hasImage || imageLocation.None? ==> k == Cockroach
  {
    if hasImage && imageLocation.Some? then
      match FirstKeyIn(Kinds, imageLocation.value)
      case Some(found) => found
      case None => Cockroach
    else Cockroach
  }

  lemma CockroachKeyAbsent(path: string)
    requires 'k' !in path
    ensures !Contains(path, Key(Cockroach))
  {
    if Contains(path, "cockroach") { ContainsChars(path, "cockroach", 'k'); }
  }

  lemma ComarKeyAbsent(path: string)
    requires 'c' !in path
    ensures !Contains(path, Key(Comar))
  {
    if Contains(path, "comar") { ContainsChars(path, "comar", 'c'); }
  }

  /** The scan stops at the first key found, in catalog order. */
  lemma FirstKeyInKinds(path: string)
    ensures Contains(path, Key(Cockroach)) ==> FirstKeyIn(Kinds, path) == Some(Cockroach)
    ensures !Contains(path, Key(Cockroach)) && Contains(path, Key(Comar)) ==>
      FirstKeyIn(Kinds, path) == Some(Comar)
    ensures !Contains(path, Key(Cockroach)) && !Contains(path, Key(Comar)) && Contains(path, Key(Fly)) ==>
      FirstKeyIn(Kinds, path) == Some(Fly)
  {
    assert Kinds[1..] == [Comar, Fly] && Kinds[1..][1..] == [Fly];
  }

  lemma CockroachPathFound(path: string)
    requires path == TypeOf(Cockroach).imagePath
    ensures GetCurrentInsectType(true, Some(path)) == Cockroach
  {
    assert OccursAt(path, Key(Cockroach), 4);
    FirstKeyInKinds(path);
  }

  lemma ComarPathFound(path: string)
    requires path == TypeOf(Comar).imagePath
    ensures GetCurrentInsectType(true, Some(path)) == Comar
  {
    CockroachKeyAbsent(path);
    assert OccursAt(path, Key(Comar), 4);
    FirstKeyInKinds(path);
  }

  lemma FlyPathKeys(path: string)
    requires path == TypeOf(Fly).imagePath
    ensures !Contains(path, Key(Cockroach)) && !Contains(path, Key(Comar))
  {
    CockroachKeyAbsent(path);
    ComarKeyAbsent(path);
  }

  lemma FlyPathFound(path: string)
    requires path == TypeOf(Fly).imagePath
    ensures GetCurrentInsectType(true, Some(path)) == Fly
  {
    FlyPathKeys(path);
    assert OccursAt(path, Key(Fly), 4);
    FirstKeyInKinds(path);
  }

  /**
   * Had the picture's `ImageLocation` been set to the catalog path of kind
   * `k`, the lookup would have recovered `k`.
   */
  lemma LookupRecoversKindFromPath(k: InsectKind)
    ensures GetCurrentInsectType(true, Some(TypeOf(k).imagePath)) == k
  {
    match k
    case Cockroach => CockroachPathFound(TypeOf(k).imagePath);
    case Comar => ComarPathFound(TypeOf(k).imagePath);
    case Fly => FlyPathFound(TypeOf(k).imagePath);
  }
}
