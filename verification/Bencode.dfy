/**
  The bencode scanner (benc/benc.c).

  `Value` is the concrete syntax the scanner accepts. It is looser than the "bencoding"
  section of BEP 3: integers may have no digits or leading zeros, length prefixes may have
  leading zeros, and dictionary keys may be unsorted or repeated.

  `LengthAt` measures in unlimited integers. `EntityLength` is the code, with its int sums, on
  buffers where these fit; `BencodeInt` is about the others.
 */
module Bencode {
  import opened CStrings
  import opened Limits

  datatype Value =
    | Num(neg: bool, digits: bytes)
    | Text(lenDigits: bytes, data: bytes)
    | Lst(items: seq<Value>)
    | Dct(items: seq<Value>)  // key, value, key, value, ...

  predicate WellFormed(v: Value) {
    match v
    case Num(_, digits) => AllDigits(digits)
    case Text(len, data) => |len| > 0 && AllDigits(len) && DecValue(len) == |data|
    case Lst(items) => forall k :: 0 <= k < |items| ==> WellFormed(items[k])
    case Dct(items) =>
      && |items| % 2 == 0
      && (forall k :: 0 <= k < |items| ==> WellFormed(items[k]))
      && (forall k :: 0 <= k < |items| && k % 2 == 0 ==> items[k].Text?)
  }

  function Encode(v: Value): (e: bytes)
    ensures |e| >= 1
    decreases v, 1
  {
    match v
    case Num(neg, digits) => ['i'] + (if neg then ['-'] else []) + digits + ['e']
    case Text(len, data) => len + [':'] + data
    case Lst(items) => ['l'] + EncodeAll(items) + ['e']
    case Dct(items) => ['d'] + EncodeAll(items) + ['e']
  }

  function EncodeAll(items: seq<Value>): bytes
    decreases items, 0
  {
    if items == [] then [] else Encode(items[0]) + EncodeAll(items[1..])
  }

  // ---------------------------------------------------------------------------------------
  // benc_entity_type as a function of the buffer, and lengths that no int limits
  // ---------------------------------------------------------------------------------------

  datatype Kind = Fail | Dict | List | Int | String

  function TypeAt(s: bytes, p: int): (k: Kind)
    ensures k != Fail ==> At(s, p) != 'e' && At(s, p) != '\0'
  {
    match At(s, p)
    case 'd' => Dict
    case 'l' => List
    case 'i' => Int
    case _ =>
      var n := DigitRun(s, p);
      if At(s, p + n) == ':' && n > 0 then String else Fail
  }

  /** What the scanner adds up for the entity at `p`, were its integers unlimited; -1 when it gives up. */
  function LengthAt(s: bytes, p: int): (n: int)
    ensures n == -1 || n >= 2
    decreases if p < |s| then |s| - p else 0, 1
  {
    match TypeAt(s, p)
    case Dict => var r := ItemsAt(s, p + 1, 0, true); if r == -1 then -1 else 1 + r
    case List => var r := ItemsAt(s, p + 1, 0, false); if r == -1 then -1 else 1 + r
    case Int =>
      var i := if At(s, p + 1) == '-' then 2 else 1;
      var n := DigitRun(s, p + i);
      if At(s, p + i + n) == 'e' then i + n + 1 else -1
    case String =>
      var n := DigitRun(s, p);
      n + DecValue(Digits(s, p)) + 1
    case Fail => -1
  }

  /** Length of the items from `q` on and the closing `e`; -1 when the scan gives up. */
  function ItemsAt(s: bytes, q: int, index: nat, dict: bool): (n: int)
    ensures n == -1 || (n >= 1 && 0 <= q && q + n <= |s|)
    decreases if q < |s| then |s| - q else 0, 2
  {
    if At(s, q) == 'e' then
      if dict && index % 2 != 0 then -1 else 1
    else if At(s, q) == '\0' then -1
    else if dict && index % 2 == 0 && TypeAt(s, q) != String then -1
    else
      var n := LengthAt(s, q);
      if n == -1 then -1 else
      var r := ItemsAt(s, q + n, index + 1, dict);
      if r == -1 then -1 else n + r
  }

  // ---------------------------------------------------------------------------------------
  // Soundness and completeness
  // ---------------------------------------------------------------------------------------

  /** What a sequence of items must satisfy when `index` items came before it. */
  predicate WellFormedItems(items: seq<Value>, index: nat, dict: bool) {
    && (forall k :: 0 <= k < |items| ==> WellFormed(items[k]))
    && (dict ==> (index + |items|) % 2 == 0)
    && (dict ==> forall k :: 0 <= k < |items| && (index + k) % 2 == 0 ==> items[k].Text?)
  }

  function KindOf(v: Value): Kind {
    match v
    case Num(_, _) => Int
    case Text(_, _) => String
    case Lst(_) => List
    case Dct(_) => Dict
  }

  lemma TextAt(s: bytes, p: int, len: bytes, data: bytes)
    requires WellFormed(Text(len, data)) && IsAt(s, p, Encode(Text(len, data)))
    ensures Digits(s, p) == len && TypeAt(s, p) == String && IsAt(s, p + |len| + 1, data)
  {
    IsAtConcat(s, p, len + [':'], data);
    IsAtConcat(s, p, len, [':']);
    IsAtByte(s, p + |len|, [':'], 0);
    DigitsAt(s, p, len);
    IsAtByte(s, p, len, 0);
  }

  lemma NumAt(s: bytes, p: int, neg: bool, digits: bytes)
    requires AllDigits(digits) && IsAt(s, p, Encode(Num(neg, digits)))
    ensures TypeAt(s, p) == Int
    ensures At(s, p + 1) == '-' <==> neg
    ensures var i := if neg then 2 else 1;
      Digits(s, p + i) == digits && At(s, p + i + |digits|) == 'e'
  {
    var i := if neg then 2 else 1;
    IsAtConcat(s, p, ['i'] + (if neg then ['-'] else []) + digits, ['e']);
    IsAtConcat(s, p, ['i'] + (if neg then ['-'] else []), digits);
    IsAtByte(s, p + i + |digits|, ['e'], 0);
    DigitsAt(s, p + i, digits);
    IsAtByte(s, p, Encode(Num(neg, digits)), 0);
    IsAtByte(s, p, Encode(Num(neg, digits)), 1);
  }

  /** The items and the closing `e` stand at `q`. */
  predicate ItemsStand(s: bytes, q: int, items: seq<Value>) {
    IsAt(s, q, EncodeAll(items)) && At(s, q + |EncodeAll(items)|) == 'e'
  }

  lemma CompoundAt(s: bytes, p: int, open: byte, items: seq<Value>)
    ensures IsAt(s, p, [open] + EncodeAll(items) + ['e']) <==>
      0 <= p < |s| && At(s, p) == open && ItemsStand(s, p + 1, items)
  {
    var w := EncodeAll(items);
    IsAtConcat(s, p, [open] + w, ['e']);
    IsAtConcat(s, p, [open], w);
    if 0 <= p < |s| && At(s, p) == open && ItemsStand(s, p + 1, items) {
      assert IsAt(s, p, [open]);
      assert IsAt(s, p + 1 + |w|, ['e']);
    } else if IsAt(s, p, [open] + w + ['e']) {
      IsAtByte(s, p, [open], 0);
      IsAtByte(s, p + 1 + |w|, ['e'], 0);
    }
  }

  /** Peeling the first item off. */
  lemma ItemsStandCons(s: bytes, q: int, head: Value, rest: seq<Value>)
    ensures EncodeAll([head] + rest) == Encode(head) + EncodeAll(rest)
    ensures ItemsStand(s, q, [head] + rest) <==>
      IsAt(s, q, Encode(head)) && ItemsStand(s, q + |Encode(head)|, rest)
  {
    assert ([head] + rest)[1..] == rest;
    IsAtConcat(s, q, Encode(head), EncodeAll(rest));
  }

  lemma WellFormedCons(head: Value, rest: seq<Value>, index: nat, dict: bool)
    requires WellFormed(head) && (dict && index % 2 == 0 ==> head.Text?)
    requires WellFormedItems(rest, index + 1, dict)
    ensures WellFormedItems([head] + rest, index, dict)
  {
    hide WellFormed;
    var items := [head] + rest;
    forall k | 0 <= k < |items| ensures items[k] == if k == 0 then head else rest[k - 1] {}
  }

  /** Every word of the language, wherever it stands, is measured exactly. */
  lemma {:induction false} ScanComplete(s: bytes, p: int, v: Value)
    requires WellFormed(v) && IsAt(s, p, Encode(v))
    ensures TypeAt(s, p) == KindOf(v) && LengthAt(s, p) == |Encode(v)|
    decreases v, 1
  {
    hide IsAt, DigitRun;
    match v
    case Num(neg, digits) => NumAt(s, p, neg, digits);
    case Text(len, data) => TextAt(s, p, len, data);
    case Lst(items) =>
      CompoundAt(s, p, 'l', items);
      ScanItemsComplete(s, p + 1, items, 0, false);
    case Dct(items) =>
      CompoundAt(s, p, 'd', items);
      ScanItemsComplete(s, p + 1, items, 0, true);
  }

  lemma {:induction false} ScanItemsComplete(s: bytes, q: int, items: seq<Value>, index: nat, dict: bool)
    requires WellFormedItems(items, index, dict) && ItemsStand(s, q, items)
    ensures ItemsAt(s, q, index, dict) == |EncodeAll(items)| + 1
    decreases items, 0
  {
    hide IsAt, TypeAt, LengthAt, Encode, WellFormed;
    if items != [] {
      var head, rest := items[0], items[1..];
      assert items == [head] + rest;
      ItemsStandCons(s, q, head, rest);
      ScanComplete(s, q, head);
      ScanItemsComplete(s, q + |Encode(head)|, rest, index + 1, dict);
    }
  }

  lemma NumSound(s: bytes, p: int) returns (v: Value)
    requires TypeAt(s, p) == Int && LengthAt(s, p) != -1
    ensures WellFormed(v) && IsAt(s, p, Encode(v)) && |Encode(v)| == LengthAt(s, p)
  {
    hide IsAt;
    var neg := At(s, p + 1) == '-';
    var i := if neg then 2 else 1;
    var digits := Digits(s, p + i);
    v := Num(neg, digits);
    DigitsStand(s, p + i);
    NumStands(s, p, neg, digits);
  }

  lemma DigitsStand(s: bytes, p: int)
    requires 0 <= p <= |s|
    ensures IsAt(s, p, Digits(s, p))
  {
    IsAtSlice(s, p, Digits(s, p));
  }

  lemma NumStands(s: bytes, p: int, neg: bool, digits: bytes)
    requires At(s, p) == 'i' && (neg ==> At(s, p + 1) == '-')
    requires var i := if neg then 2 else 1;
      IsAt(s, p + i, digits) && At(s, p + i + |digits|) == 'e'
    ensures IsAt(s, p, Encode(Num(neg, digits)))
  {
    var sign: bytes := if neg then ['-'] else [];
    var i := if neg then 2 else 1;
    hide At;
    ByteStands(s, p, 'i');
    if neg {
      ByteStands(s, p + 1, '-');
    }
    ByteStands(s, p + i + |digits|, 'e');
    IsAtConcat(s, p, ['i'] + sign + digits, ['e']);
    IsAtConcat(s, p, ['i'] + sign, digits);
    IsAtConcat(s, p, ['i'], sign);
  }

  lemma ByteStands(s: bytes, p: int, c: byte)
    requires At(s, p) == c && c != '\0'
    ensures IsAt(s, p, [c])
  {
  }

  lemma TextSound(s: bytes, p: int) returns (v: Value)
    requires TypeAt(s, p) == String && p + LengthAt(s, p) <= |s|
    ensures WellFormed(v) && IsAt(s, p, Encode(v)) && |Encode(v)| == LengthAt(s, p)
  {
    var len := Digits(s, p);
    var data := s[p + |len| + 1..p + LengthAt(s, p)];
    v := Text(len, data);
    assert s[p..p + LengthAt(s, p)] == len + [':'] + data;
  }

  /** A non-negative result that stays in the buffer measures a word of the language. */
  lemma {:induction false} ScanSound(s: bytes, p: int) returns (v: Value)
    requires LengthAt(s, p) != -1 && p + LengthAt(s, p) <= |s|
    ensures WellFormed(v) && IsAt(s, p, Encode(v)) && |Encode(v)| == LengthAt(s, p)
    decreases if p < |s| then |s| - p else 0, 1
  {
    hide IsAt, DigitRun, ItemsAt;
    match TypeAt(s, p)
    case Dict =>
      var items := ScanItemsSound(s, p + 1, 0, true);
      v := Dct(items);
      CompoundAt(s, p, 'd', items);
    case List =>
      var items := ScanItemsSound(s, p + 1, 0, false);
      v := Lst(items);
      CompoundAt(s, p, 'l', items);
    case Int => v := NumSound(s, p);
    case String => v := TextSound(s, p);
  }

  lemma {:induction false} ScanItemsSound(s: bytes, q: int, index: nat, dict: bool) returns (items: seq<Value>)
    requires ItemsAt(s, q, index, dict) != -1
    ensures WellFormedItems(items, index, dict)
    ensures ItemsStand(s, q, items) && |EncodeAll(items)| + 1 == ItemsAt(s, q, index, dict)
    decreases if q < |s| then |s| - q else 0, 2
  {
    if At(s, q) == 'e' {
      items := [];
    } else {
      hide IsAt, TypeAt, LengthAt, Encode, WellFormed, WellFormedItems;
      var head := ScanSound(s, q);
      var rest := ScanItemsSound(s, q + |Encode(head)|, index + 1, dict);
      ScanComplete(s, q, head);
      items := [head] + rest;
      WellFormedCons(head, rest, index, dict);
      ItemsStandCons(s, q, head, rest);
    }
  }

  /** Only one tree can stand at a given place. */
  lemma {:induction false} OneTreeAt(s: bytes, p: int, v: Value, w: Value)
    requires WellFormed(v) && IsAt(s, p, Encode(v))
    requires WellFormed(w) && IsAt(s, p, Encode(w))
    ensures v == w
    decreases v, 1
  {
    hide IsAt, DigitRun, LengthAt;
    ScanComplete(s, p, v);
    ScanComplete(s, p, w);
    match v
    case Num(neg, digits) =>
      NumAt(s, p, neg, digits);
      NumAt(s, p, w.neg, w.digits);
    case Text(len, data) =>
      TextAt(s, p, len, data);
      TextAt(s, p, w.lenDigits, w.data);
      IsAtSlice(s, p + |len| + 1, data);
      IsAtSlice(s, p + |len| + 1, w.data);
    case Lst(items) =>
      CompoundAt(s, p, 'l', items);
      CompoundAt(s, p, 'l', w.items);
      OneItemsAt(s, p + 1, items, w.items);
    case Dct(items) =>
      CompoundAt(s, p, 'd', items);
      CompoundAt(s, p, 'd', w.items);
      OneItemsAt(s, p + 1, items, w.items);
  }

  lemma {:induction false} OneItemsAt(s: bytes, q: int, a: seq<Value>, b: seq<Value>)
    requires WellFormedItems(a, 0, false) && ItemsStand(s, q, a)
    requires WellFormedItems(b, 0, false) && ItemsStand(s, q, b)
    ensures a == b
    decreases a, 0
  {
    hide IsAt, TypeAt, LengthAt, WellFormed;
    if a == [] || b == [] {
      if a != [] {
        ItemsStandFirst(s, q, a);
      } else if b != [] {
        ItemsStandFirst(s, q, b);
      }
    } else {
      ItemsStandFirst(s, q, a);
      ItemsStandFirst(s, q, b);
      OneTreeAt(s, q, a[0], b[0]);
      OneItemsAt(s, q + |Encode(a[0])|, a[1..], b[1..]);
      assert a == [a[0]] + a[1..] && b == [b[0]] + b[1..];
    }
  }

  lemma ItemsStandFirst(s: bytes, q: int, items: seq<Value>)
    requires items != [] && WellFormed(items[0]) && ItemsStand(s, q, items)
    ensures IsAt(s, q, Encode(items[0])) && ItemsStand(s, q + |Encode(items[0])|, items[1..])
    ensures TypeAt(s, q) == KindOf(items[0]) && LengthAt(s, q) == |Encode(items[0])|
    ensures At(s, q) != 'e' && At(s, q) != '\0'
  {
    hide IsAt, WellFormed, TypeAt, LengthAt, Encode, DigitRun;
    assert items == [items[0]] + items[1..];
    ItemsStandCons(s, q, items[0], items[1..]);
    ScanComplete(s, q, items[0]);
  }

  /** The language is prefix-free and every word has exactly one tree. */
  lemma UniqueDecoding(v: Value, w: Value, x: bytes, y: bytes)
    requires WellFormed(v) && WellFormed(w) && Encode(v) + x == Encode(w) + y
    ensures v == w && x == y
  {
    var s := Encode(v) + x;
    IsAtConcat(s, 0, Encode(v), x);
    IsAtConcat(s, 0, Encode(w), y);
    OneTreeAt(s, 0, v, w);
    assert x == s[|Encode(v)|..] == y;
  }

  lemma WordIsMeasured(v: Value)
    requires WellFormed(v)
    ensures LengthAt(Encode(v), 0) == |Encode(v)|
  {
    ScanComplete(Encode(v), 0, v);
  }

  /** Words that BEP 3 does not allow: no digits, a sign alone, leading zeros, a key twice. */
  lemma LooserThanBep3()
    ensures LengthAt("ie", 0) == 2 && LengthAt("i-e", 0) == 3 && LengthAt("i03e", 0) == 4 && LengthAt("01:a", 0) == 4
    ensures exists v :: WellFormed(v) && v.Dct? && |v.items| == 4 && v.items[0] == v.items[2]
  {
    hide LengthAt, EncodeAll, IsAt;
    WordIsMeasured(Num(false, []));
    WordIsMeasured(Num(true, []));
    WordIsMeasured(Num(false, "03"));
    assert Encode(Num(false, [])) == "ie" && Encode(Num(true, [])) == "i-e" && Encode(Num(false, "03")) == "i03e";
    assert DecValue("01"[..1]) == 10 * DecValue([]) + 0;
    WordIsMeasured(Text("01", "a"));
    assert Encode(Text("01", "a")) == "01:a";
    var one := Num(false, []);
    var key := Text("01", "a");
    assert WellFormed(key);
    assert WellFormed(Dct([key, one, key, one]));
  }

  // ---------------------------------------------------------------------------------------
  // Trees standing in a buffer
  // ---------------------------------------------------------------------------------------

  /** The tree whose encoding stands at `p`, if there is one. */
  ghost function TreeAt(s: bytes, p: int): (t: Option<Value>)
    ensures t.Some? ==> WellFormed(t.value) && IsAt(s, p, Encode(t.value))
    ensures t.None? ==> forall v :: WellFormed(v) ==> !IsAt(s, p, Encode(v))
  {
    if exists v :: WellFormed(v) && IsAt(s, p, Encode(v))
    then var v :| WellFormed(v) && IsAt(s, p, Encode(v)); Some(v)
    else None
  }

  lemma TreeAtIs(s: bytes, p: int, v: Value)
    requires WellFormed(v) && IsAt(s, p, Encode(v))
    ensures TreeAt(s, p) == Some(v)
  {
    hide IsAt;
    OneTreeAt(s, p, v, TreeAt(s, p).value);
  }

  /** A list or dict that the scanner measures is a tree inside the buffer. */
  lemma CompoundTree(s: bytes, p: int)
    requires TypeAt(s, p) == Dict || TypeAt(s, p) == List
    requires LengthAt(s, p) != -1
    ensures TreeAt(s, p).Some? && KindOf(TreeAt(s, p).value) == TypeAt(s, p)
    ensures |Encode(TreeAt(s, p).value)| == LengthAt(s, p) && p + LengthAt(s, p) <= |s|
  {
    hide IsAt;
    assert p + LengthAt(s, p) <= |s|;
    var v := ScanSound(s, p);
    TreeAtIs(s, p, v);
    ScanComplete(s, p, v);
  }

  lemma TreeType(s: bytes, p: int)
    requires TreeAt(s, p).Some?
    ensures TypeAt(s, p) == KindOf(TreeAt(s, p).value)
    ensures LengthAt(s, p) == |Encode(TreeAt(s, p).value)|
  {
    ScanComplete(s, p, TreeAt(s, p).value);
  }

  // ---------------------------------------------------------------------------------------
  // Lengths that an int can hold
  // ---------------------------------------------------------------------------------------

  /** No string that the scan comes by is longer, or ends further on, than an int can say. */
  predicate LengthFits(s: bytes, p: int)
    decreases if p < |s| then |s| - p else 0, 1
  {
    match TypeAt(s, p)
    case Dict => ItemsFit(s, p + 1, 0, true)
    case List => ItemsFit(s, p + 1, 0, false)
    case String => LengthAt(s, p) <= INT_MAX
    case _ => true
  }

  predicate ItemsFit(s: bytes, q: int, index: nat, dict: bool)
    decreases if q < |s| then |s| - q else 0, 2
  {
    if At(s, q) == 'e' || At(s, q) == '\0' || (dict && index % 2 == 0 && TypeAt(s, q) != String) then true
    else
      var n := LengthAt(s, q);
      LengthFits(s, q) && (n != -1 ==> q + n <= INT_MAX && ItemsFit(s, q + n, index + 1, dict))
  }

  /** In a buffer that an int can index, everything inside a tree fits. */
  lemma {:induction false} WordFits(s: bytes, p: int, v: Value)
    requires WellFormed(v) && IsAt(s, p, Encode(v)) && |s| <= INT_MAX
    ensures LengthFits(s, p)
    decreases v, 1
  {
    hide IsAt, DigitRun, Encode, LengthAt, WellFormed, TypeAt;
    ScanComplete(s, p, v);
    EncodedInside(s, p, v);
    if v.Lst? || v.Dct? {
      CompoundStands(s, p, v);
      WordsFit(s, p + 1, v.items, 0, v.Dct?);
    }
  }

  lemma EncodedInside(s: bytes, p: int, v: Value)
    requires IsAt(s, p, Encode(v))
    ensures 0 <= p && p + |Encode(v)| <= |s|
  {
  }

  lemma CompoundStands(s: bytes, p: int, v: Value)
    requires WellFormed(v) && (v.Lst? || v.Dct?) && IsAt(s, p, Encode(v))
    ensures ItemsStand(s, p + 1, v.items) && WellFormedItems(v.items, 0, v.Dct?)
  {
    CompoundAt(s, p, if v.Lst? then 'l' else 'd', v.items);
  }

  lemma {:induction false} WordsFit(s: bytes, q: int, items: seq<Value>, index: nat, dict: bool)
    requires WellFormedItems(items, index, dict) && ItemsStand(s, q, items) && |s| <= INT_MAX
    ensures ItemsFit(s, q, index, dict)
    decreases items, 0
  {
    hide IsAt, TypeAt, LengthAt, LengthFits, Encode, WellFormed;
    if items != [] {
      assert items == [items[0]] + items[1..];
      ItemsStandCons(s, q, items[0], items[1..]);
      ScanComplete(s, q, items[0]);
      EncodedInside(s, q, items[0]);
      WordFits(s, q, items[0]);
      WordsFit(s, q + |Encode(items[0])|, items[1..], index + 1, dict);
    }
  }

  /** Likewise for the tree at a place. */
  lemma TreeFits(s: bytes, p: int)
    requires TreeAt(s, p).Some? && |s| <= INT_MAX
    ensures LengthFits(s, p)
  {
    WordFits(s, p, TreeAt(s, p).value);
  }

  // ---------------------------------------------------------------------------------------
  // The scanning loops
  // ---------------------------------------------------------------------------------------

  method EntityType(s: bytes, p: int) returns (k: Kind)
    ensures k == TypeAt(s, p)
  {
    match At(s, p)
    case 'd' => return Dict;
    case 'l' => return List;
    case 'i' => return Int;
    case _ =>
      var i := CountDigits(s, p);
      if At(s, p + i) == ':' && i > 0 {
        return String;
      }
      return Fail;
  }

  method CountDigits(s: bytes, p: int) returns (i: nat)
    ensures i == DigitRun(s, p)
  {
    i := 0;
    while IsDigit(At(s, p + i))
      invariant i + DigitRun(s, p + i) == DigitRun(s, p)
      decreases DigitRun(s, p + i)
    {
      i := i + 1;
    }
  }

  /** benc_entity_length, with its sums in int and the length prefix read by strtol. */
  method EntityLength(s: bytes, p: int) returns (n: cint)
    requires |s| <= INT_MAX && LengthFits(s, p)
    ensures n == LengthAt(s, p)
    decreases if p < |s| then |s| - p else 0, 1
  {
    var kind := EntityType(s, p);
    match kind
    case Dict => n := DictLength(s, p);
    case List => n := ListLength(s, p);
    case Int =>
      var i := if At(s, p + 1) == '-' then 2 else 1;
      var digits := CountDigits(s, p + i);
      i := i + digits;
      return if At(s, p + i) == 'e' then ToInt(i + 1) else -1;
    case String =>
      var i := CountDigits(s, p);
      var conv := Long(false, DecValue(Digits(s, p)));
      return ToInt(i + conv + 1);
    case Fail => return -1;
  }

  function Total(offset: nat, rest: int): int {
    if rest == -1 then -1 else 1 + offset + rest
  }

  lemma CompoundLength(s: bytes, p: int)
    ensures TypeAt(s, p) == Dict ==> LengthAt(s, p) == Total(0, ItemsAt(s, p + 1, 0, true))
    ensures TypeAt(s, p) == List ==> LengthAt(s, p) == Total(0, ItemsAt(s, p + 1, 0, false))
    ensures TypeAt(s, p) == Dict && LengthFits(s, p) ==> 0 <= p < |s| && ItemsFit(s, p + 1, 0, true)
    ensures TypeAt(s, p) == List && LengthFits(s, p) ==> 0 <= p < |s| && ItemsFit(s, p + 1, 0, false)
  {
  }

  method DictLength(s: bytes, p: int) returns (n: cint)
    requires TypeAt(s, p) == Dict && |s| <= INT_MAX && LengthFits(s, p)
    ensures n == LengthAt(s, p)
    decreases if p < |s| then |s| - p else 0, 0
  {
    hide TypeAt, DigitRun, LengthAt, LengthFits, ToInt;
    CompoundLength(s, p);
    var offset: cint, item_index := 0, 0;
    while At(s, p + offset + 1) != 'e' && At(s, p + offset + 1) != '\0'
      invariant 0 <= offset && 0 <= item_index && p + offset + 1 <= INT_MAX
      invariant LengthAt(s, p) == Total(offset, ItemsAt(s, p + offset + 1, item_index, true))
      invariant ItemsFit(s, p + offset + 1, item_index, true)
      decreases if p + offset < |s| then |s| - (p + offset) else 0
    {
      var key := EntityType(s, p + offset + 1);
      if item_index % 2 == 0 && key != String {
        return -1;
      }
      var item_length := EntityLength(s, p + offset + 1);
      if item_length == -1 {
        return -1;
      }
      offset := ToInt(offset + item_length);
      item_index := item_index + 1;
    }
    n := if At(s, p + offset + 1) == 'e' && item_index % 2 == 0 then ToInt(offset + 2) else -1;
  }

  method ListLength(s: bytes, p: int) returns (n: cint)
    requires TypeAt(s, p) == List && |s| <= INT_MAX && LengthFits(s, p)
    ensures n == LengthAt(s, p)
    decreases if p < |s| then |s| - p else 0, 0
  {
    hide TypeAt, DigitRun, LengthAt, LengthFits, ToInt;
    CompoundLength(s, p);
    var offset: cint := 0;
    ghost var index := 0;
    while At(s, p + offset + 1) != 'e' && At(s, p + offset + 1) != '\0'
      invariant 0 <= offset && 0 <= index && p + offset + 1 <= INT_MAX
      invariant LengthAt(s, p) == Total(offset, ItemsAt(s, p + offset + 1, index, false))
      invariant ItemsFit(s, p + offset + 1, index, false)
      decreases if p + offset < |s| then |s| - (p + offset) else 0
    {
      var item_length := EntityLength(s, p + offset + 1);
      if item_length == -1 {
        return -1;
      }
      offset := ToInt(offset + item_length);
      index := index + 1;
    }
    n := if At(s, p + offset + 1) == 'e' then ToInt(offset + 2) else -1;
  }
}
