/**
  benc_entity_length on every buffer (benc/benc.c): the scanner with its int arithmetic, one
  step of `fuel` for every item it enters. It can wrap, and then run forever, walk back or
  accept what is no word; here is exactly when it does what `Bencode` says.
 */
module BencodeInt {
  import opened CStrings
  import opened Limits
  import opened Bencode

  /** What the scanner has returned, or that it is still running. */
  datatype Scan = Length(n: cint) | Running

  /** i+conv+1 */
  function StringStep(s: bytes, p: int): cint {
    ToInt(DigitRun(s, p) + Long(false, DecValue(Digits(s, p))) + 1)
  }

  function Scanned(s: bytes, p: int, fuel: nat): Scan
    decreases fuel, 1
  {
    match TypeAt(s, p)
    case Dict => ScannedItems(s, p, 0, 0, true, fuel)
    case List => ScannedItems(s, p, 0, 0, false, fuel)
    case Int =>
      var i := if At(s, p + 1) == '-' then 2 else 1;
      var n := DigitRun(s, p + i);
      Length(if At(s, p + i + n) == 'e' then ToInt(i + n + 1) else -1)
    case String => Length(StringStep(s, p))
    case Fail => Length(-1)
  }

  /** The loop over the items, `offset` bytes behind the opening letter. */
  function ScannedItems(s: bytes, p: int, offset: cint, index: nat, dict: bool, fuel: nat): Scan
    decreases fuel, 0
  {
    var q := p + offset + 1;
    if At(s, q) == 'e' then Length(if dict && index % 2 != 0 then -1 else ToInt(offset + 2))
    else if At(s, q) == '\0' || (dict && index % 2 == 0 && TypeAt(s, q) != String) then Length(-1)
    else if fuel == 0 then Running
    else match Scanned(s, q, fuel - 1)
      case Running => Running
      case Length(n) =>
        if n == -1 then Length(-1) else ScannedItems(s, p, ToInt(offset + n), index + 1, dict, fuel - 1)
  }

  // ---------------------------------------------------------------------------------------
  // Where the lengths fit
  // ---------------------------------------------------------------------------------------

  /** The length of a string comes out right exactly when an int can hold it. */
  lemma StringExact(s: bytes, p: int, fuel: nat)
    requires TypeAt(s, p) == String
    ensures Scanned(s, p, fuel) == Length(StringStep(s, p))
    ensures StringStep(s, p) == LengthAt(s, p) <==> LengthAt(s, p) <= INT_MAX
  {
    hide TypeAt;
    var i, v := DigitRun(s, p), DecValue(Digits(s, p));
    assert LengthAt(s, p) == i + v + 1;
  }

  /** Where all lengths fit the scanner ends, within as many steps as bytes are left, with the length of the word. */
  lemma {:induction false} ScansRight(s: bytes, p: int, fuel: nat)
    requires |s| <= INT_MAX && LengthFits(s, p) && p + fuel + 1 >= |s|
    ensures Scanned(s, p, fuel) == Length(LengthAt(s, p))
    decreases if p < |s| then |s| - p else 0, 1
  {
    hide DigitRun, ItemsAt, ItemsFit, DecValue, ToInt;
    match TypeAt(s, p) {
      case Dict => ScansItemsRight(s, p, 0, 0, true, fuel);
      case List => ScansItemsRight(s, p, 0, 0, false, fuel);
      case String => StringExact(s, p, fuel);
      case Int => IntInside(s, p);
      case Fail =>
    }
  }

  lemma IntInside(s: bytes, p: int)
    requires TypeAt(s, p) == Int
    ensures LengthAt(s, p) != -1 ==> 0 <= p && p + LengthAt(s, p) <= |s|
  {
  }

  lemma {:induction false} ScansItemsRight(s: bytes, p: int, offset: cint, index: nat, dict: bool, fuel: nat)
    requires |s| <= INT_MAX && 0 <= p < |s| && 0 <= offset
    requires ItemsFit(s, p + offset + 1, index, dict) && p + offset + 1 + fuel >= |s|
    ensures ScannedItems(s, p, offset, index, dict, fuel) ==
      Length(Total(offset, ItemsAt(s, p + offset + 1, index, dict)))
    decreases if p + offset + 1 < |s| then |s| - (p + offset + 1) else 0, 2
  {
    hide TypeAt, DigitRun, LengthAt, LengthFits, Scanned, ToInt;
    var q := p + offset + 1;
    if At(s, q) != 'e' && At(s, q) != '\0' && !(dict && index % 2 == 0 && TypeAt(s, q) != String) {
      ScansRight(s, q, fuel - 1);
      if LengthAt(s, q) != -1 {
        ScansItemsRight(s, p, ToInt(offset + LengthAt(s, q)), index + 1, dict, fuel - 1);
      }
    }
  }

  /** Once the scanner has returned, more steps change nothing. */
  lemma {:induction false} MoreSteps(s: bytes, p: int, fuel: nat, more: nat)
    requires fuel <= more && Scanned(s, p, fuel) != Running
    ensures Scanned(s, p, more) == Scanned(s, p, fuel)
    decreases fuel, 1
  {
    hide DigitRun, TypeAt, StringStep, ToInt;
    match TypeAt(s, p) {
      case Dict => MoreItemSteps(s, p, 0, 0, true, fuel, more);
      case List => MoreItemSteps(s, p, 0, 0, false, fuel, more);
      case _ =>
    }
  }

  lemma {:induction false} MoreItemSteps(s: bytes, p: int, offset: cint, index: nat, dict: bool, fuel: nat, more: nat)
    requires fuel <= more && ScannedItems(s, p, offset, index, dict, fuel) != Running
    ensures ScannedItems(s, p, offset, index, dict, more) == ScannedItems(s, p, offset, index, dict, fuel)
    decreases fuel, 0
  {
    hide TypeAt, Scanned, ToInt;
    var q := p + offset + 1;
    if At(s, q) != 'e' && At(s, q) != '\0' && !(dict && index % 2 == 0 && TypeAt(s, q) != String) {
      MoreSteps(s, q, fuel - 1, more - 1);
      var n := Scanned(s, q, fuel - 1).n;
      if n != -1 {
        MoreItemSteps(s, p, ToInt(offset + n), index + 1, dict, fuel - 1, more - 1);
      }
    }
  }

  /** The scanner returns this, after however many steps. */
  ghost predicate Returns(s: bytes, p: int, n: cint) {
    exists fuel: nat :: Scanned(s, p, fuel) == Length(n)
  }

  lemma FitsReturns(s: bytes, p: int, n: cint)
    requires |s| <= INT_MAX && LengthFits(s, p)
    ensures Returns(s, p, n) <==> n == LengthAt(s, p)
  {
    hide Scanned, LengthFits, LengthAt;
    var enough: nat := if |s| > p then |s| - p else 0;
    ScansRight(s, p, enough);
    forall fuel: nat | Scanned(s, p, fuel) == Length(n) ensures n == LengthAt(s, p) {
      if fuel <= enough {
        MoreSteps(s, p, fuel, enough);
      } else {
        MoreSteps(s, p, enough, fuel);
      }
    }
  }

  /** Completeness of the code: wherever a word stands, the scanner returns its length and nothing else. */
  lemma WordReturns(s: bytes, p: int, v: Value, n: cint)
    requires WellFormed(v) && IsAt(s, p, Encode(v)) && |s| <= INT_MAX
    ensures Returns(s, p, n) <==> n == |Encode(v)|
  {
    hide Returns, LengthFits, LengthAt, WellFormed, Encode, IsAt;
    WordFits(s, p, v);
    ScanComplete(s, p, v);
    FitsReturns(s, p, n);
  }

  /** Soundness of the code: what it returns the length of is a word exactly when all lengths on the way fit. */
  lemma ReturnIsWord(s: bytes, p: int, n: cint)
    requires Returns(s, p, n) && n != -1 && p + n <= |s| <= INT_MAX
    ensures LengthFits(s, p) <==> exists v :: WellFormed(v) && IsAt(s, p, Encode(v)) && |Encode(v)| == n
  {
    hide Returns, LengthFits, LengthAt, WellFormed, Encode, IsAt;
    forall v | WellFormed(v) && IsAt(s, p, Encode(v)) ensures LengthFits(s, p) {
      WordFits(s, p, v);
    }
    if LengthFits(s, p) {
      FitsReturns(s, p, n);
      var v := ScanSound(s, p);
    }
  }

  /** Of a list or dict whose lengths fit, whatever is returned but -1 lies inside the buffer and measures a tree. */
  lemma CompoundInside(s: bytes, p: int, n: cint)
    requires Returns(s, p, n) && n != -1 && |s| <= INT_MAX && LengthFits(s, p)
    requires TypeAt(s, p) == Dict || TypeAt(s, p) == List
    ensures 0 <= p && p + n <= |s| && TreeAt(s, p).Some? && |Encode(TreeAt(s, p).value)| == n
  {
    hide Returns, LengthFits, LengthAt, Encode, IsAt;
    FitsReturns(s, p, n);
    CompoundTree(s, p);
    EncodedInside(s, p, TreeAt(s, p).value);
  }

  /**
    The language. In a buffer that an int can index, the words are exactly what the scanner
    returns the length of without coming by a length that does not fit.
   */
  lemma Recognises(s: bytes, n: cint)
    requires 0 < n <= |s| <= INT_MAX
    ensures (exists v :: WellFormed(v) && Encode(v) == s[..n]) <==> Returns(s, 0, n) && LengthFits(s, 0)
  {
    hide Returns, LengthFits, LengthAt, WellFormed, Encode, IsAt;
    forall v ensures Encode(v) == s[..n] <==> IsAt(s, 0, Encode(v)) && |Encode(v)| == n {
      AtStart(s, n, Encode(v));
    }
    forall v | WellFormed(v) && Encode(v) == s[..n] ensures Returns(s, 0, n) && LengthFits(s, 0) {
      WordReturns(s, 0, v, n);
      WordFits(s, 0, v);
    }
    if Returns(s, 0, n) {
      ReturnIsWord(s, 0, n);
    }
  }

  lemma AtStart(s: bytes, n: nat, w: bytes)
    requires n <= |s|
    ensures w == s[..n] <==> IsAt(s, 0, w) && |w| == n
  {
    IsAtSlice(s, 0, w);
    if |w| == n {
      assert s[0..0 + |w|] == s[..n];
    }
  }

  // ---------------------------------------------------------------------------------------
  // Where they do not
  // ---------------------------------------------------------------------------------------

  /** A string whose length is 0 as an int: the loop that comes by it never moves again. */
  lemma {:induction false} StuckAt(s: bytes, p: int, offset: cint, index: nat, dict: bool, fuel: nat)
    requires TypeAt(s, p + offset + 1) == String && StringStep(s, p + offset + 1) == 0
    ensures ScannedItems(s, p, offset, index, dict, fuel) == Running
    decreases fuel
  {
    hide StringStep;
    if fuel > 0 {
      StringExact(s, p + offset + 1, fuel - 1);
      StuckAt(s, p, offset, index + 1, dict, fuel - 1);
    }
  }

  /** Where the scan of a buffer goes: to an end, round in circles, or back over bytes before. */
  datatype Course = Ends(n: cint) | Stuck | Back

  function CourseAt(s: bytes, p: int): Course
    decreases if p < |s| then |s| - p else 0, 1
  {
    match TypeAt(s, p)
    case Dict => ItemCourse(s, p, 0, 0, true)
    case List => ItemCourse(s, p, 0, 0, false)
    case _ => Ends(Scanned(s, p, 0).n)
  }

  /** As long as every item moves the offset on, the loop comes to an end. */
  function ItemCourse(s: bytes, p: nat, offset: cint, index: nat, dict: bool): Course
    requires 0 <= offset
    decreases if p + offset + 1 < |s| then |s| - (p + offset + 1) else 0, 2
  {
    var q := p + offset + 1;
    if At(s, q) == 'e' then Ends(if dict && index % 2 != 0 then -1 else ToInt(offset + 2))
    else if At(s, q) == '\0' || (dict && index % 2 == 0 && TypeAt(s, q) != String) then Ends(-1)
    else match CourseAt(s, q)
      case Stuck => Stuck
      case Back => Back
      case Ends(n) =>
        var next := ToInt(offset + n);
        if n == -1 then Ends(-1)
        else if next == offset then Stuck
        else if next < offset then Back
        else ItemCourse(s, p, next, index + 1, dict)
  }

  lemma {:induction false} CourseEnds(s: bytes, p: int, fuel: nat)
    requires CourseAt(s, p).Ends? && p + fuel + 1 >= |s|
    ensures Scanned(s, p, fuel) == Length(CourseAt(s, p).n)
    decreases if p < |s| then |s| - p else 0, 1
  {
    hide DigitRun, ItemCourse, ScannedItems, StringStep, ToInt;
    match TypeAt(s, p) {
      case Dict => ItemsEnd(s, p, 0, 0, true, fuel);
      case List => ItemsEnd(s, p, 0, 0, false, fuel);
      case _ =>
    }
  }

  lemma {:induction false} ItemsEnd(s: bytes, p: nat, offset: cint, index: nat, dict: bool, fuel: nat)
    requires 0 <= offset && ItemCourse(s, p, offset, index, dict).Ends? && p + offset + 1 + fuel >= |s|
    ensures ScannedItems(s, p, offset, index, dict, fuel) == Length(ItemCourse(s, p, offset, index, dict).n)
    decreases if p + offset + 1 < |s| then |s| - (p + offset + 1) else 0, 2
  {
    hide TypeAt, DigitRun, Scanned, CourseAt, ToInt;
    var q := p + offset + 1;
    if At(s, q) != 'e' && At(s, q) != '\0' && !(dict && index % 2 == 0 && TypeAt(s, q) != String) {
      CourseEnds(s, q, fuel - 1);
      var n := CourseAt(s, q).n;
      if n != -1 {
        ItemsEnd(s, p, ToInt(offset + n), index + 1, dict, fuel - 1);
      }
    }
  }

  /** Only a string can have the length 0. */
  lemma ZeroIsString(s: bytes, p: int)
    requires CourseAt(s, p) == Ends(0) && |s| <= INT_MAX
    ensures TypeAt(s, p) == String && StringStep(s, p) == 0
  {
    hide ItemCourse, StringStep, ToInt;
    match TypeAt(s, p) {
      case Dict => ItemsNotZero(s, p, 0, 0, true);
      case List => ItemsNotZero(s, p, 0, 0, false);
      case Int => IntInside(s, p);
      case _ =>
    }
  }

  lemma {:induction false} ItemsNotZero(s: bytes, p: nat, offset: cint, index: nat, dict: bool)
    requires 0 <= offset && |s| <= INT_MAX
    ensures ItemCourse(s, p, offset, index, dict) != Ends(0)
    decreases if p + offset + 1 < |s| then |s| - (p + offset + 1) else 0
  {
    hide TypeAt, CourseAt, ToInt;
    var q := p + offset + 1;
    if At(s, q) != 'e' && At(s, q) != '\0' && CourseAt(s, q).Ends? {
      var next := ToInt(offset + CourseAt(s, q).n);
      if next > offset {
        ItemsNotZero(s, p, next, index + 1, dict);
      }
    }
  }

  lemma {:induction false} CourseStuck(s: bytes, p: int, fuel: nat)
    requires CourseAt(s, p) == Stuck && |s| <= INT_MAX
    ensures Scanned(s, p, fuel) == Running
    decreases if p < |s| then |s| - p else 0, 1
  {
    hide DigitRun, ItemCourse, ScannedItems, StringStep, ToInt;
    match TypeAt(s, p) {
      case Dict => ItemsStuck(s, p, 0, 0, true, fuel);
      case List => ItemsStuck(s, p, 0, 0, false, fuel);
      case _ =>
    }
  }

  lemma {:induction false} ItemsStuck(s: bytes, p: nat, offset: cint, index: nat, dict: bool, fuel: nat)
    requires 0 <= offset && ItemCourse(s, p, offset, index, dict) == Stuck && |s| <= INT_MAX
    ensures ScannedItems(s, p, offset, index, dict, fuel) == Running
    decreases if p + offset + 1 < |s| then |s| - (p + offset + 1) else 0, 2
  {
    hide TypeAt, DigitRun, Scanned, CourseAt, ToInt, StringStep;
    var q := p + offset + 1;
    if CourseAt(s, q) == Stuck {
      if fuel > 0 {
        CourseStuck(s, q, fuel - 1);
      }
    } else {
      var n := CourseAt(s, q).n;
      if ToInt(offset + n) == offset {
        SameOffset(offset, n);
        ZeroIsString(s, q);
        StuckAt(s, p, offset, index, dict, fuel);
      } else {
        ItemsStuck(s, p, ToInt(offset + n), index + 1, dict, if fuel > 0 then fuel - 1 else 0);
        var enough: nat := |s| - q;
        if fuel > 0 {
          CourseEnds(s, q, if fuel - 1 > enough then fuel - 1 else enough);
          StepOrRunning(s, q, fuel - 1, if fuel - 1 > enough then fuel - 1 else enough);
        }
      }
    }
  }

  lemma SameOffset(offset: cint, n: cint)
    requires ToInt(offset + n) == offset
    ensures n == 0
  {
  }

  lemma StepOrRunning(s: bytes, q: int, fuel: nat, more: nat)
    requires fuel <= more
    ensures Scanned(s, q, fuel) == Running || Scanned(s, q, fuel) == Scanned(s, q, more)
  {
    hide Scanned;
    if Scanned(s, q, fuel) != Running {
      MoreSteps(s, q, fuel, more);
    }
  }

  /**
    Termination of the code: unless an item takes it back, the scanner returns exactly when no
    item that it comes by leaves it where it is.
   */
  lemma ReturnsUnlessStuck(s: bytes, p: int)
    requires |s| <= INT_MAX && CourseAt(s, p) != Back
    ensures (exists n :: Returns(s, p, n)) <==> CourseAt(s, p) != Stuck
  {
    hide CourseAt, Scanned;
    if CourseAt(s, p) == Stuck {
      forall fuel: nat ensures Scanned(s, p, fuel) == Running {
        CourseStuck(s, p, fuel);
      }
    } else {
      CourseEnds(s, p, if |s| > p then |s| - p else 0);
      assert Returns(s, p, CourseAt(s, p).n);
    }
  }

  // ---------------------------------------------------------------------------------------
  // When it returns at all
  // ---------------------------------------------------------------------------------------

  /** A place in the loop over the items of the list or dict at `p`. */
  datatype Place = Place(p: int, offset: cint, odd: bool)

  predicate Compound(s: bytes, p: int) {
    TypeAt(s, p) == Dict || TypeAt(s, p) == List
  }

  function FromPlace(s: bytes, a: Place, fuel: nat): Scan {
    ScannedItems(s, a.p, a.offset, if a.odd then 1 else 0, TypeAt(s, a.p) == Dict, fuel)
  }

  /** The loop does not end here. */
  predicate TakesItem(s: bytes, a: Place) {
    var q := a.p + a.offset + 1;
    && At(s, q) != 'e' && At(s, q) != '\0'
    && !(TypeAt(s, a.p) == Dict && !a.odd && TypeAt(s, q) != String)
  }

  /** Where the scan goes from a place: into the item, and behind it once that has returned. */
  ghost predicate Follows(s: bytes, a: Place, b: Place) {
    var q := a.p + a.offset + 1;
    && TakesItem(s, a)
    && (|| (Compound(s, q) && b == Place(q, 0, false))
        || exists n: cint :: Returns(s, q, n) && n != -1 && b == Place(a.p, ToInt(a.offset + n), !a.odd))
  }

  ghost predicate Way(s: bytes, way: seq<Place>) {
    forall i :: 0 < i < |way| ==> Follows(s, way[i - 1], way[i])
  }

  ghost predicate NoCircle(s: bytes, a: Place) {
    forall way: seq<Place>, i, j :: 0 <= i < j < |way| && Way(s, way) && way[0] == a ==> way[i] != way[j]
  }

  /** Of the number of an item only the parity matters. */
  lemma {:induction false} Parity(s: bytes, p: int, offset: cint, index: nat, dict: bool, fuel: nat)
    ensures ScannedItems(s, p, offset, index, dict, fuel) == ScannedItems(s, p, offset, index % 2, dict, fuel)
    decreases fuel
  {
    hide TypeAt, Scanned, ToInt;
    var q := p + offset + 1;
    if fuel > 0 && Scanned(s, q, fuel - 1).Length? {
      var next := ToInt(offset + Scanned(s, q, fuel - 1).n);
      Parity(s, p, next, index + 1, dict, fuel - 1);
      Parity(s, p, next, index % 2 + 1, dict, fuel - 1);
      assert (index % 2 + 1) % 2 == (index + 1) % 2;
    }
  }

  lemma SameReturn(s: bytes, p: int, n: cint, fuel: nat)
    requires Returns(s, p, n) && Scanned(s, p, fuel) != Running
    ensures Scanned(s, p, fuel) == Length(n)
  {
    hide Scanned;
    var f: nat :| Scanned(s, p, f) == Length(n);
    MoreSteps(s, p, f, f + fuel);
    MoreSteps(s, p, fuel, f + fuel);
  }

  /** From the next place the scan returns at least one step sooner. */
  lemma Sooner(s: bytes, a: Place, b: Place, fuel: nat)
    requires Follows(s, a, b) && FromPlace(s, a, fuel) != Running
    ensures fuel > 0 && FromPlace(s, b, fuel - 1) != Running
  {
    hide TypeAt, ToInt, Returns, Scanned;
    var q := a.p + a.offset + 1;
    if b == Place(q, 0, false) && Compound(s, q) {
      EntersItems(s, q, fuel - 1);
    } else {
      var n: cint :| Returns(s, q, n) && n != -1 && b == Place(a.p, ToInt(a.offset + n), !a.odd);
      SameReturn(s, q, n, fuel - 1);
      Parity(s, a.p, ToInt(a.offset + n), if a.odd then 2 else 1, TypeAt(s, a.p) == Dict, fuel - 1);
    }
  }

  lemma EntersItems(s: bytes, q: int, fuel: nat)
    requires Compound(s, q)
    ensures Scanned(s, q, fuel) == FromPlace(s, Place(q, 0, false), fuel)
  {
    hide TypeAt, ScannedItems;
  }

  lemma {:induction false} SoonerOnWay(s: bytes, way: seq<Place>, k: nat, fuel: nat)
    requires Way(s, way) && k < |way| && FromPlace(s, way[0], fuel) != Running
    ensures k <= fuel && FromPlace(s, way[k], fuel - k) != Running
    decreases k
  {
    hide Follows, FromPlace;
    if k > 0 {
      SoonerOnWay(s, way, k - 1, fuel);
      Sooner(s, way[k - 1], way[k], fuel - (k - 1));
    }
  }

  /** On a circle the scan never returns. */
  lemma {:induction false} CircleRuns(s: bytes, way: seq<Place>, k: nat, fuel: nat)
    requires Way(s, way) && 0 < k < |way| && way[k] == way[0]
    ensures FromPlace(s, way[0], fuel) == Running
    decreases fuel
  {
    hide Follows, FromPlace, Way;
    if FromPlace(s, way[0], fuel) != Running {
      SoonerOnWay(s, way, k, fuel);
      CircleRuns(s, way, k, fuel - k);
    }
  }

  lemma WayFrom(s: bytes, way: seq<Place>, i: nat)
    requires Way(s, way) && i < |way|
    ensures Way(s, way[i..])
  {
    hide Follows;
  }

  lemma WayOn(s: bytes, way: seq<Place>, b: Place)
    requires |way| >= 1 && Way(s, way) && NoCircle(s, way[0]) && Follows(s, way[|way| - 1], b)
    ensures Way(s, way + [b]) && b !in way
  {
    hide Follows;
    var on := way + [b];
    forall i | 0 <= i < |way| ensures way[i] != b {
      assert on[i] != on[|way|];
    }
  }

  /** The places at which the loop can go on. */
  ghost function Places(s: bytes): set<Place> {
    set p: int, o: cint, odd: bool | 0 <= p < |s| && -|s| - 1 <= o < |s| :: Place(p, o, odd)
  }

  ghost function Left(s: bytes, way: seq<Place>): set<Place> {
    Places(s) - set a | a in way
  }

  lemma FewerLeft(s: bytes, way: seq<Place>, b: Place)
    requires b !in way && TakesItem(s, b) && 0 <= b.p < |s|
    ensures |Left(s, way + [b])| < |Left(s, way)|
  {
    assert b in Left(s, way);
    assert Left(s, way + [b]) == Left(s, way) - {b};
  }

  /** On a way that cannot close to a circle the scan returns: it runs out of places. */
  lemma {:induction false} RunsOut(s: bytes, way: seq<Place>) returns (fuel: nat)
    requires |way| >= 1 && Way(s, way) && NoCircle(s, way[0]) && 0 <= way[|way| - 1].p < |s|
    ensures FromPlace(s, way[|way| - 1], fuel) != Running
    decreases |Left(s, way)|
  {
    hide TypeAt, Way, NoCircle, Left, ToInt, Scanned, Returns;
    var a := way[|way| - 1];
    var q := a.p + a.offset + 1;
    fuel := 0;
    if TakesItem(s, a) {
      var item: nat := 0;
      if Compound(s, q) {
        item := Onward(s, way, Place(q, 0, false));
        EntersItems(s, q, item);
      } else {
        SimpleReturns(s, q);
      }
      var n := Scanned(s, q, item).n;
      fuel := item + 1;
      if n != -1 {
        assert Returns(s, q, n) by {
          ReturnsAt(s, q, item);
        }
        var b := Place(a.p, ToInt(a.offset + n), !a.odd);
        var rest := Onward(s, way, b);
        fuel := item + rest + 1;
        MoreSteps(s, q, item, item + rest);
        MorePlaceSteps(s, b, rest, item + rest);
        Parity(s, a.p, ToInt(a.offset + n), if a.odd then 2 else 1, TypeAt(s, a.p) == Dict, item + rest);
      }
    }
  }

  lemma {:induction false} Onward(s: bytes, way: seq<Place>, b: Place) returns (fuel: nat)
    requires |way| >= 1 && Way(s, way) && NoCircle(s, way[0]) && Follows(s, way[|way| - 1], b) && 0 <= b.p < |s|
    ensures FromPlace(s, b, fuel) != Running
    decreases |Left(s, way)|, 0
  {
    hide Follows, Way, NoCircle, Left;
    fuel := 0;
    if TakesItem(s, b) {
      WayOn(s, way, b);
      FewerLeft(s, way, b);
      assert (way + [b])[0] == way[0];
      fuel := RunsOut(s, way + [b]);
    }
  }

  lemma SimpleReturns(s: bytes, q: int)
    requires !Compound(s, q)
    ensures Scanned(s, q, 0) != Running
  {
  }

  lemma ReturnsAt(s: bytes, q: int, fuel: nat)
    requires Scanned(s, q, fuel) != Running
    ensures Returns(s, q, Scanned(s, q, fuel).n)
  {
  }

  lemma MorePlaceSteps(s: bytes, a: Place, fuel: nat, more: nat)
    requires fuel <= more && FromPlace(s, a, fuel) != Running
    ensures FromPlace(s, a, more) == FromPlace(s, a, fuel)
  {
    MoreItemSteps(s, a.p, a.offset, if a.odd then 1 else 0, TypeAt(s, a.p) == Dict, fuel, more);
  }

  /**
    Termination of the code, on every buffer: the scanner returns exactly when it cannot come
    twice to the same offset behind the same letter with the same parity, nested calls included.
   */
  lemma ReturnsExactly(s: bytes, p: int)
    ensures (exists n :: Returns(s, p, n)) <==> (Compound(s, p) ==> NoCircle(s, Place(p, 0, false)))
  {
    hide TypeAt, Way, Scanned, FromPlace, Returns;
    var start := Place(p, 0, false);
    if !Compound(s, p) {
      SimpleReturns(s, p);
      ReturnsAt(s, p, 0);
    } else if NoCircle(s, start) {
      CompoundPlace(s, p);
      var fuel := RunsOut(s, [start]);
      EntersItems(s, p, fuel);
      ReturnsAt(s, p, fuel);
    } else {
      var way: seq<Place>, i, j :| 0 <= i < j < |way| && Way(s, way) && way[0] == start && way[i] == way[j];
      forall n ensures !Returns(s, p, n) {
        CircleAhead(s, way, i, j, n);
      }
    }
  }

  lemma CompoundPlace(s: bytes, p: int)
    requires Compound(s, p)
    ensures 0 <= p < |s| && Way(s, [Place(p, 0, false)])
  {
  }

  lemma CircleAhead(s: bytes, way: seq<Place>, i: nat, j: nat, n: cint)
    requires i < j < |way| && Way(s, way) && way[i] == way[j]
    requires way[0] == Place(way[0].p, 0, false) && Compound(s, way[0].p)
    ensures !Returns(s, way[0].p, n)
  {
    hide TypeAt, Way, Scanned, FromPlace;
    forall fuel: nat ensures Scanned(s, way[0].p, fuel) == Running {
      EntersItems(s, way[0].p, fuel);
      if FromPlace(s, way[0], fuel) != Running {
        SoonerOnWay(s, way, i, fuel);
        WayFrom(s, way, i);
        CircleRuns(s, way[i..], j - i, fuel - i);
      }
    }
  }

  // ---------------------------------------------------------------------------------------
  // Inputs
  // ---------------------------------------------------------------------------------------

  lemma AppendDigit(d: bytes, c: byte)
    requires AllDigits(d) && IsDigit(c)
    ensures DecValue(d + [c]) == 10 * DecValue(d) + DigitValue(c)
  {
    assert (d + [c])[..|d|] == d;
  }

  lemma Value429()
    ensures DecValue("429") == 429
  {
    AppendDigit("", '4');
    AppendDigit("4", '2');
    AppendDigit("42", '9');
    assert "" + ['4'] == "4" && "4" + ['2'] == "42" && "42" + ['9'] == "429";
  }

  lemma Value429496()
    ensures DecValue("429496") == 429496
  {
    hide DecValue;
    Value429();
    AppendDigit("429", '4');
    AppendDigit("4294", '9');
    AppendDigit("42949", '6');
    assert "429" + ['4'] == "4294" && "4294" + ['9'] == "42949" && "42949" + ['6'] == "429496";
  }

  /** The numeral 429496 and four more digits. */
  lemma TenDigits(a: byte, b: byte, c: byte, d: byte)
    requires IsDigit(a) && IsDigit(b) && IsDigit(c) && IsDigit(d)
    ensures DecValue("429496" + [a, b, c, d]) ==
      4294960000 + 1000 * DigitValue(a) + 100 * DigitValue(b) + 10 * DigitValue(c) + DigitValue(d)
  {
    var w: bytes := "429496";
    Value429496();
    hide DecValue;
    AppendDigit(w, a);
    AppendDigit(w + [a], b);
    AppendDigit(w + [a] + [b], c);
    AppendDigit(w + [a] + [b] + [c], d);
    assert w + [a] + [b] + [c] + [d] == w + [a, b, c, d];
  }

  /** A list that starts with a string of such a length, behind some text. */
  function ListOf(head: bytes, a: byte, b: byte, c: byte, d: byte, tail: bytes): bytes {
    head + ("l" + ("429496" + [a, b, c, d] + ":") + tail)
  }

  lemma PrefixStep(head: bytes, a: byte, b: byte, c: byte, d: byte, tail: bytes)
    requires IsDigit(a) && IsDigit(b) && IsDigit(c) && IsDigit(d)
    ensures var s, p := ListOf(head, a, b, c, d, tail), |head|;
      && |s| == p + 12 + |tail| && TypeAt(s, p) == List && TypeAt(s, p + 1) == String
      && LengthAt(s, p + 1) ==
        4294960011 + 1000 * DigitValue(a) + 100 * DigitValue(b) + 10 * DigitValue(c) + DigitValue(d)
      && StringStep(s, p + 1) == ToInt(LengthAt(s, p + 1))
      && forall k :: 0 <= k < |tail| ==> s[p + 12 + k] == tail[k]
  {
    var s, p, w: bytes := ListOf(head, a, b, c, d, tail), |head|, "429496" + [a, b, c, d];
    TenDigits(a, b, c, d);
    assert IsAt(s, p + 1, w) && At(s, p + 11) == ':' && At(s, p) == 'l' && IsDigit(At(s, p + 1)) by {
      IsAtByte(s, p + 1, w, 0);
    }
    hide DecValue, ToInt, DigitRun, IsAt, ListOf;
    DigitsAt(s, p + 1, w);
  }

  lemma Written(head: bytes, tail: bytes)
    ensures ListOf(head, '7', '2', '8', '5', tail) == head + ("l4294967285:" + tail)
    ensures ListOf(head, '7', '2', '0', '0', tail) == head + ("l4294967200:" + tail)
    ensures ListOf(head, '7', '2', '9', '8', tail) == head + ("l4294967298:" + tail)
  {
    assert "l" + ("429496" + ['7', '2', '8', '5'] + ":") == "l4294967285:";
    assert "l" + ("429496" + ['7', '2', '0', '0'] + ":") == "l4294967200:";
    assert "l" + ("429496" + ['7', '2', '9', '8'] + ":") == "l4294967298:";
  }

  /** 4294967285 and the eleven bytes around it make 2^32: the scan of this list never ends, whatever follows. */
  lemma NeverEnds(head: bytes, tail: bytes, fuel: nat)
    ensures Scanned(head + ("l4294967285:" + tail), |head|, fuel) == Running
  {
    hide StringStep, LengthAt, ListOf, TypeAt, DigitRun;
    Written(head, tail);
    PrefixStep(head, '7', '2', '8', '5', tail);
    StuckAt(head + ("l4294967285:" + tail), |head|, 0, 0, false, fuel);
  }

  /** Nor does that of a torrent file with this list for its "info". */
  lemma TorrentNeverEnds(tail: bytes, fuel: nat)
    ensures Scanned("d4:info" + ("l4294967285:" + tail), 0, fuel) == Running
  {
    var s: bytes := "d4:info" + ("l4294967285:" + tail);
    hide StringStep, ToInt, LengthAt, ScannedItems, DecValue;
    assert At(s, 0) == 'd' && At(s, 1) == '4' && At(s, 2) == ':' && At(s, 7) == 'l';
    DigitsAt(s, 1, "4");
    FourDigits(s);
    if fuel >= 2 {
      NeverEnds("d4:info", tail, fuel - 2);
    }
    FirstOfTwo(s, fuel);
  }

  lemma FourDigits(s: bytes)
    requires Digits(s, 1) == "4"
    ensures StringStep(s, 1) == 6
  {
    AppendDigit("", '4');
    assert "" + ['4'] == "4";
  }

  lemma FirstOfTwo(s: bytes, fuel: nat)
    requires TypeAt(s, 0) == Dict && TypeAt(s, 1) == String && StringStep(s, 1) == 6 && TypeAt(s, 7) == List
    requires fuel >= 2 ==> Scanned(s, 7, fuel - 2) == Running
    ensures Scanned(s, 0, fuel) == Running
  {
    hide TypeAt, StringStep;
    assert At(s, 1) != 'e' && At(s, 1) != '\0' && At(s, 7) != 'e' && At(s, 7) != '\0';
    if fuel >= 1 {
      assert Scanned(s, 1, fuel - 1) == Length(6);
      assert ScannedItems(s, 0, 6, 1, true, fuel - 1) == Running;
    }
  }

  /** 4294967200: as an int the length is negative, and the loop goes back. */
  lemma GoesBack(tail: bytes)
    ensures StringStep("l4294967200:" + tail, 1) == -85
  {
    hide StringStep, LengthAt, ListOf, TypeAt, DigitRun;
    Written("", tail);
    PrefixStep("", '7', '2', '0', '0', tail);
    assert "" + ("l4294967200:" + tail) == "l4294967200:" + tail;
  }

  /** A list of one string, as long as its int length says. */
  lemma OneString(s: bytes, n: cint)
    requires TypeAt(s, 0) == List && TypeAt(s, 1) == String && StringStep(s, 1) == n && 0 < n < 100
    requires At(s, n + 1) == 'e'
    ensures Scanned(s, 0, 1) == Length(n + 2)
  {
    hide TypeAt, StringStep;
    assert At(s, 1) != 'e' && At(s, 1) != '\0';
    assert Scanned(s, 1, 0) == Length(n);
    assert ScannedItems(s, 0, n, 1, false, 0) == Length(n + 2);
  }

  lemma TooLong(s: bytes)
    requires TypeAt(s, 0) == List && TypeAt(s, 1) == String && LengthAt(s, 1) > INT_MAX
    ensures !LengthFits(s, 0)
  {
    hide TypeAt, LengthAt;
    assert At(s, 1) != 'e' && At(s, 1) != '\0';
  }

  /** 4294967298: as an int the length is 13, and what is no word is accepted. */
  lemma AcceptsNoWord()
    ensures Returns("l4294967298:" + "aae", 0, 15)
    ensures !exists v :: WellFormed(v) && Encode(v) == "l4294967298:" + "aae"
  {
    hide StringStep, LengthAt, ListOf, TypeAt, DigitRun, WellFormed, Encode, LengthFits, Scanned, ScannedItems;
    var s: bytes := "l4294967298:" + "aae";
    Written("", "aae");
    PrefixStep("", '7', '2', '9', '8', "aae");
    assert "" + s == s;
    OneString(s, 13);
    TooLong(s);
    Recognises(s, 15);
    assert s[..15] == s;
  }

  // ---------------------------------------------------------------------------------------
  // What the scanner looks at
  // ---------------------------------------------------------------------------------------

  /** The furthest byte that finding out the kind looks at. */
  function KindRead(s: bytes, p: int): int {
    if At(s, p) == 'd' || At(s, p) == 'l' || At(s, p) == 'i' then p else p + DigitRun(s, p)
  }

  /**
    All that the scan has looked at after `fuel` steps stands in the buffer or is its
    terminator, the byte at |s|.
   */
  predicate LooksInside(s: bytes, p: int, fuel: nat)
    decreases fuel, 1
  {
    && 0 <= p && KindRead(s, p) <= |s|
    && match TypeAt(s, p)
       case Dict => ItemsLookInside(s, p, 0, 0, true, fuel)
       case List => ItemsLookInside(s, p, 0, 0, false, fuel)
       case Int => var i := if At(s, p + 1) == '-' then 2 else 1; p + i + DigitRun(s, p + i) <= |s|
       case _ => true
  }

  predicate ItemsLookInside(s: bytes, p: int, offset: cint, index: nat, dict: bool, fuel: nat)
    decreases fuel, 0
  {
    var q := p + offset + 1;
    && 0 <= q <= |s|
    && if At(s, q) == 'e' || At(s, q) == '\0' then true
       else if dict && index % 2 == 0 && TypeAt(s, q) != String then KindRead(s, q) <= |s|
       else if fuel == 0 then true
       else
         && LooksInside(s, q, fuel - 1)
         && match Scanned(s, q, fuel - 1)
            case Running => true
            case Length(n) => n != -1 ==> ItemsLookInside(s, p, ToInt(offset + n), index + 1, dict, fuel - 1)
  }

  /** Every string that the scan steps over ends in the buffer, as long as its length as an int says. */
  predicate StaysInside(s: bytes, p: int)
    decreases if p < |s| then |s| - p else 0, 1
  {
    match TypeAt(s, p)
    case Dict => ItemsInside(s, p, 0, 0, true)
    case List => ItemsInside(s, p, 0, 0, false)
    case _ => true
  }

  predicate ItemsInside(s: bytes, p: nat, offset: cint, index: nat, dict: bool)
    requires 0 <= offset
    decreases if p + offset + 1 < |s| then |s| - (p + offset + 1) else 0, 2
  {
    var q := p + offset + 1;
    if At(s, q) == 'e' || At(s, q) == '\0' || (dict && index % 2 == 0 && TypeAt(s, q) != String) then true
    else
      && StaysInside(s, q)
      && (TypeAt(s, q) == String ==> q + StringStep(s, q) <= |s|)
      && match CourseAt(s, q)
         case Ends(n) =>
           var next := ToInt(offset + n);
           n != -1 && next > offset ==> ItemsInside(s, p, next, index + 1, dict)
         case _ => true
  }

  /** However long the scan runs, all that it looks at stands in the buffer or is its terminator. */
  ghost predicate AlwaysInside(s: bytes, p: int) {
    forall fuel: nat :: LooksInside(s, p, fuel)
  }

  /**
    Unless an item takes it back, the scan looks at nothing behind the terminator exactly when
    no string that it steps over is cut off.
   */
  lemma ReadsInside(s: bytes, p: int)
    requires 0 <= p <= |s| <= INT_MAX && CourseAt(s, p) != Back
    ensures AlwaysInside(s, p) <==> StaysInside(s, p)
  {
    hide CourseAt, LooksInside, StaysInside;
    if StaysInside(s, p) {
      forall fuel: nat ensures LooksInside(s, p, fuel) {
        InsideLooks(s, p, fuel);
      }
    } else {
      OutsideLooks(s, p, |s| - p);
    }
  }

  lemma {:induction false} InsideLooks(s: bytes, p: int, fuel: nat)
    requires 0 <= p <= |s| <= INT_MAX && CourseAt(s, p) != Back && StaysInside(s, p)
    ensures LooksInside(s, p, fuel)
    decreases |s| - p, 1
  {
    hide ItemCourse, ItemsInside, ItemsLookInside, StringStep;
    KindReadInside(s, p);
    match TypeAt(s, p) {
      case Dict => InsideItemsLook(s, p, 0, 0, true, fuel);
      case List => InsideItemsLook(s, p, 0, 0, false, fuel);
      case _ =>
    }
  }

  lemma {:induction false} InsideItemsLook(s: bytes, p: nat, offset: cint, index: nat, dict: bool, fuel: nat)
    requires 0 <= offset && p + offset + 1 <= |s| <= INT_MAX
    requires ItemCourse(s, p, offset, index, dict) != Back && ItemsInside(s, p, offset, index, dict)
    ensures ItemsLookInside(s, p, offset, index, dict, fuel)
    decreases |s| - (p + offset + 1), 2
  {
    hide TypeAt, DigitRun, KindRead, Scanned, LooksInside, StaysInside, CourseAt, ToInt, StringStep;
    var q := p + offset + 1;
    KindReadInside(s, q);
    if fuel > 0 && At(s, q) != 'e' && At(s, q) != '\0' && !(dict && index % 2 == 0 && TypeAt(s, q) != String) {
      InsideLooks(s, q, fuel - 1);
      StepIsCourse(s, q, fuel - 1);
      if Scanned(s, q, fuel - 1) != Running && CourseAt(s, q) != Ends(-1) {
        var n := CourseAt(s, q).n;
        Moved(offset, n);
        if ToInt(offset + n) == offset {
          ZeroIsString(s, q);
          StuckLooks(s, p, offset, index + 1, dict, fuel - 1);
        } else {
          CourseInside(s, q);
          InsideItemsLook(s, p, ToInt(offset + n), index + 1, dict, fuel - 1);
        }
      }
    }
  }

  /** What the scan has come to after some steps is where its course leads. */
  lemma StepIsCourse(s: bytes, q: int, fuel: nat)
    requires |s| <= INT_MAX && CourseAt(s, q) != Back
    ensures Scanned(s, q, fuel) == Running || CourseAt(s, q) == Ends(Scanned(s, q, fuel).n)
  {
    hide Scanned, CourseAt;
    if CourseAt(s, q) == Stuck {
      CourseStuck(s, q, fuel);
    } else {
      var enough: nat := fuel + if |s| > q then |s| - q else 0;
      CourseEnds(s, q, enough);
      StepOrRunning(s, q, fuel, enough);
    }
  }

  lemma Moved(offset: cint, n: cint)
    requires 0 <= offset <= ToInt(offset + n)
    ensures ToInt(offset + n) == offset + n
    ensures ToInt(offset + n) == offset <==> n == 0
  {
  }

  lemma {:induction false} StuckLooks(s: bytes, p: int, offset: cint, index: nat, dict: bool, fuel: nat)
    requires 0 <= p + offset + 1 <= |s|
    requires TypeAt(s, p + offset + 1) == String && StringStep(s, p + offset + 1) == 0
    ensures ItemsLookInside(s, p, offset, index, dict, fuel)
    decreases fuel
  {
    hide StringStep;
    KindReadInside(s, p + offset + 1);
    if fuel > 0 {
      StuckLooks(s, p, offset, index + 1, dict, fuel - 1);
    }
  }

  /** Any item but a string that comes to an end does so in the buffer. */
  lemma CourseInside(s: bytes, p: int)
    requires 0 <= p && CourseAt(s, p).Ends? && CourseAt(s, p).n != -1 && |s| <= INT_MAX
    ensures TypeAt(s, p) != String ==> p + CourseAt(s, p).n <= |s|
    ensures TypeAt(s, p) == String ==> CourseAt(s, p).n == StringStep(s, p)
  {
    hide ItemCourse, StringStep, ToInt;
    match TypeAt(s, p) {
      case Dict => ItemsEndInside(s, p, 0, 0, true);
      case List => ItemsEndInside(s, p, 0, 0, false);
      case Int => IntInside(s, p);
      case _ =>
    }
  }

  lemma {:induction false} ItemsEndInside(s: bytes, p: nat, offset: cint, index: nat, dict: bool)
    requires 0 <= offset && ItemCourse(s, p, offset, index, dict).Ends? && |s| <= INT_MAX
    ensures ItemCourse(s, p, offset, index, dict).n != -1 ==> p + ItemCourse(s, p, offset, index, dict).n <= |s|
    decreases if p + offset + 1 < |s| then |s| - (p + offset + 1) else 0
  {
    hide TypeAt, CourseAt;
    var q := p + offset + 1;
    if At(s, q) != 'e' && At(s, q) != '\0' && !(dict && index % 2 == 0 && TypeAt(s, q) != String) {
      if CourseAt(s, q) != Ends(-1) {
        ItemsEndInside(s, p, ToInt(offset + CourseAt(s, q).n), index + 1, dict);
      }
    }
  }

  lemma {:induction false} OutsideLooks(s: bytes, p: int, fuel: nat)
    requires 0 <= p <= |s| <= INT_MAX && CourseAt(s, p) != Back && p + fuel + 1 >= |s|
    ensures LooksInside(s, p, fuel) ==> StaysInside(s, p)
    decreases |s| - p, 1
  {
    hide ItemCourse, ItemsInside, ItemsLookInside, StringStep;
    match TypeAt(s, p) {
      case Dict => OutsideItemsLook(s, p, 0, 0, true, fuel);
      case List => OutsideItemsLook(s, p, 0, 0, false, fuel);
      case _ =>
    }
  }

  lemma {:induction false} OutsideItemsLook(s: bytes, p: nat, offset: cint, index: nat, dict: bool, fuel: nat)
    requires 0 <= offset && p + offset + 1 <= |s| <= INT_MAX && p + offset + 1 + fuel >= |s|
    requires ItemCourse(s, p, offset, index, dict) != Back
    ensures ItemsLookInside(s, p, offset, index, dict, fuel) ==> ItemsInside(s, p, offset, index, dict)
    decreases |s| - (p + offset + 1), 2
  {
    hide TypeAt, DigitRun, KindRead, Scanned, LooksInside, StaysInside, CourseAt, ToInt, StringStep;
    var q := p + offset + 1;
    if At(s, q) != 'e' && At(s, q) != '\0' && !(dict && index % 2 == 0 && TypeAt(s, q) != String) {
      OutsideLooks(s, q, fuel - 1);
      StringCourse(s, q);
      if CourseAt(s, q).Ends? && CourseAt(s, q).n != -1 {
        var n := CourseAt(s, q).n;
        CourseEnds(s, q, fuel - 1);
        Moved(offset, n);
        if p + ToInt(offset + n) + 1 > |s| {
          assert !ItemsLookInside(s, p, ToInt(offset + n), index + 1, dict, fuel - 1);
        } else if n != 0 {
          OutsideItemsLook(s, p, ToInt(offset + n), index + 1, dict, fuel - 1);
        }
      }
    }
  }

  lemma StringCourse(s: bytes, q: int)
    ensures TypeAt(s, q) == String ==> CourseAt(s, q) == Ends(StringStep(s, q))
  {
    hide StringStep;
  }

  lemma KindReadInside(s: bytes, q: int)
    requires 0 <= q <= |s|
    ensures q <= KindRead(s, q) <= |s|
  {
  }

  /** A list whose first string leaves the buffer. */
  lemma LeavesBuffer(s: bytes, n: cint)
    requires TypeAt(s, 0) == List && TypeAt(s, 1) == String && StringStep(s, 1) == n
    requires n != -1 && !(0 <= n + 1 <= |s|)
    ensures !AlwaysInside(s, 0)
  {
    hide StringStep, DigitRun;
    assert At(s, 1) != 'e' && At(s, 1) != '\0' && At(s, 0) == 'l';
    assert Scanned(s, 1, 0) == Length(n);
    assert !ItemsLookInside(s, 0, n, 1, false, 0);
    assert !ItemsLookInside(s, 0, 0, 0, false, 1);
    assert !LooksInside(s, 0, 1);
  }

  /** A string cut off: the loop looks for the next item eight bytes behind the terminator, then gives up. */
  lemma ReadsBehind()
    ensures !AlwaysInside("l9:e", 0) && CourseAt("l9:e", 0) != Back && !StaysInside("l9:e", 0)
  {
    var s: bytes := "l9:e";
    assert At(s, 0) == 'l' && At(s, 1) == '9' && At(s, 2) == ':';
    DigitsAt(s, 1, "9");
    NineDigits(s);
    hide StringStep, DigitRun, LooksInside;
    LeavesBuffer(s, 11);
    ReadsInside(s, 0);
  }

  lemma NineDigits(s: bytes)
    requires Digits(s, 1) == "9"
    ensures StringStep(s, 1) == 11
  {
    AppendDigit("", '9');
    assert "" + ['9'] == "9";
  }

  /** Where the length is negative as an int, the loop looks in front of the buffer. */
  lemma ReadsInFront(tail: bytes)
    ensures !AlwaysInside("l4294967200:" + tail, 0)
  {
    hide StringStep, LengthAt, ListOf, TypeAt, DigitRun;
    Written("", tail);
    PrefixStep("", '7', '2', '0', '0', tail);
    assert "" + ("l4294967200:" + tail) == "l4294967200:" + tail;
    LeavesBuffer("l4294967200:" + tail, -85);
  }
}
