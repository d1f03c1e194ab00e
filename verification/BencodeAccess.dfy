/**
  The accessors of benc/benc.c: list items, dictionary keys and values, integers, strings.

  The list and dictionary loops do not check the scanner for failure, so a list or dict
  must have been measured successfully before they are called.
 */
module BencodeAccess {
  import opened CStrings
  import opened Bencode
  import opened Limits

  // ---------------------------------------------------------------------------------------
  // The same questions asked of the tree
  // ---------------------------------------------------------------------------------------

  /** Distance from the start of a list or dict to its k-th item. */
  function ChildOffset(items: seq<Value>, k: nat): (offset: nat)
    requires k <= |items|
    ensures offset >= 1
  {
    1 + |EncodeAll(items[..k])|
  }

  predicate IsKey(items: seq<Value>, k: nat, key: bytes)
    requires k < |items|
  {
    k % 2 == 0 && items[k].Text? && items[k].data == key
  }

  /** Position of the first key equal to `key` among the items from `i` on. */
  function FindKey(items: seq<Value>, key: bytes, i: nat := 0): (r: Option<nat>)
    requires i <= |items|
    ensures r.Some? ==> i <= r.value < |items| && IsKey(items, r.value, key)
    ensures forall k :: i <= k < (if r.Some? then r.value else |items|) ==> !IsKey(items, k, key)
    decreases |items| - i
  {
    if i == |items| then None
    else if IsKey(items, i, key) then Some(i)
    else FindKey(items, key, i + 1)
  }

  /** The value stored under the first key equal to `key`. */
  function Lookup(v: Value, key: bytes): (r: Option<Value>)
    requires WellFormed(v)
    ensures r.Some? ==> WellFormed(r.value)
  {
    if !v.Dct? then None else
    match FindKey(v.items, key)
    case None => None
    case Some(k) => assert |v.items| % 2 == 0; Some(v.items[k + 1])
  }

  /** What benc_int_value makes of an integer: a numeral of one character is not read, and strtol is cut to int. */
  function IntOf(v: Value, defval: cint): cint
    requires WellFormed(v)
  {
    match v
    case Num(neg, digits) =>
      if (if neg then 1 else 0) + |digits| <= 1 then defval else ToInt(Long(neg, DecValue(digits)))
    case _ => defval
  }

  // ---------------------------------------------------------------------------------------
  // Strings and integers as BEP 3 writes them
  // ---------------------------------------------------------------------------------------

  function TextTree(data: bytes): Value {
    Text(Dec(|data|), data)
  }

  function IntTree(n: int): Value {
    Num(n < 0, Dec(if n < 0 then -n else n))
  }

  lemma IntTreeEncode(n: int)
    ensures WellFormed(IntTree(n)) && Encode(IntTree(n)) == ['i'] + DecInt(n) + ['e']
  {
    hide Dec, DecValue;
  }

  /**
    benc_int_value loses exactly the integers 0 to 9, for which the default comes back, and
    those that no int can hold.
   */
  lemma IntTreeReadBack(n: int, defval: cint)
    ensures WellFormed(IntTree(n))
    ensures 0 <= n <= 9 ==> IntOf(IntTree(n), defval) == defval
    ensures IntOf(IntTree(n), -1) == n <==> !(0 <= n <= 9) && -INT_MAX - 1 <= n <= INT_MAX
  {
    hide Dec, DecValue;
    DecValueDec(if n < 0 then -n else n);
  }

  /** `%d:%s` */
  function TextText(data: bytes): bytes {
    Dec(|data|) + [':'] + data
  }

  lemma TextTreeEncode(data: bytes)
    ensures WellFormed(TextTree(data)) && Encode(TextTree(data)) == TextText(data)
  {
    DecValueDec(|data|);
  }

  // ---------------------------------------------------------------------------------------
  // Children of a tree that stands in the buffer
  // ---------------------------------------------------------------------------------------

  lemma {:induction false} EncodeAllConcat(a: seq<Value>, b: seq<Value>)
    ensures EncodeAll(a + b) == EncodeAll(a) + EncodeAll(b)
  {
    hide Encode;
    if a == [] {
      assert a + b == b;
    } else {
      assert (a + b)[1..] == a[1..] + b;
      EncodeAllConcat(a[1..], b);
    }
  }

  lemma EncodeAllOne(v: Value)
    ensures EncodeAll([v]) == Encode(v)
  {
    hide Encode;
    assert [v][1..] == [];
    assert EncodeAll([v]) == Encode(v) + [];
  }

  /** From the k-th item on, the rest of the items stand where ChildOffset says. */
  lemma ItemsStandFrom(s: bytes, p: int, items: seq<Value>, k: nat)
    requires ItemsStand(s, p + 1, items) && k <= |items|
    ensures ItemsStand(s, p + ChildOffset(items, k), items[k..])
  {
    hide IsAt, Encode;
    assert items == items[..k] + items[k..];
    EncodeAllConcat(items[..k], items[k..]);
    IsAtConcat(s, p + 1, EncodeAll(items[..k]), EncodeAll(items[k..]));
  }

  lemma ChildOffsetNext(items: seq<Value>, k: nat)
    requires k < |items|
    ensures ChildOffset(items, k + 1) == ChildOffset(items, k) + |Encode(items[k])|
  {
    hide Encode;
    assert items[..k + 1] == items[..k] + [items[k]];
    EncodeAllConcat(items[..k], [items[k]]);
    EncodeAllOne(items[k]);
  }

  /** Every item takes up a byte at least. */
  lemma {:induction false} ChildOffsetGrows(items: seq<Value>, k: nat)
    requires k <= |items|
    ensures ChildOffset(items, k) > k
  {
    hide Encode, ChildOffset;
    if k > 0 {
      ChildOffsetGrows(items, k - 1);
      ChildOffsetNext(items, k - 1);
    }
  }

  lemma CompoundItems(s: bytes, p: int, v: Value)
    requires (v.Lst? || v.Dct?) && IsAt(s, p, Encode(v))
    ensures ItemsStand(s, p + 1, v.items)
  {
    CompoundAt(s, p, if v.Lst? then 'l' else 'd', v.items);
  }

  /** What the scanner sees at the k-th item, or behind the last one. */
  lemma ChildAt(s: bytes, p: int, v: Value, k: nat)
    requires WellFormed(v) && IsAt(s, p, Encode(v))
    requires (v.Lst? || v.Dct?) && k <= |v.items|
    ensures k == |v.items| ==> At(s, p + ChildOffset(v.items, k)) == 'e'
    ensures k < |v.items| ==>
      var q := p + ChildOffset(v.items, k);
      && IsAt(s, q, Encode(v.items[k])) && TreeAt(s, q) == Some(v.items[k])
      && TypeAt(s, q) == KindOf(v.items[k]) && LengthAt(s, q) == |Encode(v.items[k])|
      && At(s, q) != 'e' && At(s, q) != '\0'
      && ChildOffset(v.items, k + 1) == ChildOffset(v.items, k) + LengthAt(s, q)
  {
    hide IsAt, DigitRun, TypeAt, LengthAt, Encode, TreeAt;
    CompoundItems(s, p, v);
    ItemsStandFrom(s, p, v.items, k);
    if k < |v.items| {
      var q := p + ChildOffset(v.items, k);
      ItemsStandFirst(s, q, v.items[k..]);
      TreeAtIs(s, q, v.items[k]);
      ChildOffsetNext(v.items, k);
    }
  }

  /** The value under a key stands where benc_dict_value_offset points. */
  lemma ValueAt(s: bytes, p: int, key: bytes)
    requires TreeAt(s, p).Some? && TreeAt(s, p).value.Dct?
    ensures var v := TreeAt(s, p).value;
      match FindKey(v.items, key)
      case None => Lookup(v, key).None?
      case Some(k) =>
        && k + 1 < |v.items| && Lookup(v, key) == Some(v.items[k + 1])
        && TreeAt(s, p + ChildOffset(v.items, k + 1)) == Some(v.items[k + 1])
  {
    hide IsAt, DigitRun, TypeAt, LengthAt, Encode, TreeAt, EncodeAll;
    var v := TreeAt(s, p).value;
    var r := FindKey(v.items, key);
    if r.Some? {
      assert |v.items| % 2 == 0;
      ChildAt(s, p, v, r.value + 1);
    }
  }

  lemma InsideTree(s: bytes, p: int)
    requires TreeAt(s, p).Some?
    ensures 0 <= p && p + LengthAt(s, p) <= |s|
  {
    TreeType(s, p);
  }

  // ---------------------------------------------------------------------------------------
  // The accessors
  // ---------------------------------------------------------------------------------------

  /** benc_list_item_offset */
  method ListItemOffset(s: bytes, p: int, item: cint) returns (r: cint)
    requires |s| <= INT_MAX
    requires TypeAt(s, p) == List ==> LengthAt(s, p) != -1
    ensures TypeAt(s, p) != List ==> r == -1
    ensures TypeAt(s, p) == List ==> TreeAt(s, p).Some? && TreeAt(s, p).value.Lst?
    ensures TypeAt(s, p) == List ==>
      var items := TreeAt(s, p).value.items;
      r == if 0 <= item < |items| then ChildOffset(items, item) else -1
  {
    hide TypeAt, LengthAt, TreeAt, WellFormed, IsAt, DigitRun, Encode;
    var kind := EntityType(s, p);
    if kind != List {
      return -1;
    }
    CompoundTree(s, p);
    ghost var v := TreeAt(s, p).value;
    if item < 0 {
      return -1;
    }
    var offset: cint, cur_item: cint := 0, 0;
    ChildAt(s, p, v, 0);
    while At(s, p + offset + 1) != 'e' && At(s, p + offset + 1) != '\0'
      invariant 0 <= cur_item <= |v.items| && cur_item <= item
      invariant offset + 1 == ChildOffset(v.items, cur_item)
      invariant At(s, p + offset + 1) == 'e' <==> cur_item == |v.items|
      invariant At(s, p + offset + 1) != '\0'
      decreases |v.items| - cur_item
    {
      if cur_item == item {
        return offset + 1;
      }
      ChildAt(s, p, v, cur_item);
      ChildAt(s, p, v, cur_item + 1);
      TreeFits(s, p + offset + 1);
      InsideTree(s, p + offset + 1);
      var n := EntityLength(s, p + offset + 1);
      offset := offset + n;
      cur_item := cur_item + 1;
    }
    return -1;
  }

  /** benc_string_length */
  method StringLength(s: bytes, p: int) returns (n: cint)
    ensures TypeAt(s, p) != String ==> n == -1
    ensures TypeAt(s, p) == String ==> n == ToInt(ULong(false, DecValue(Digits(s, p))))
    ensures |s| <= INT_MAX && TreeAt(s, p).Some? && TreeAt(s, p).value.Text? ==> n == |TreeAt(s, p).value.data|
  {
    hide TypeAt, LengthAt, TreeAt, IsAt, DigitRun;
    var kind := EntityType(s, p);
    if TreeAt(s, p).Some? && TreeAt(s, p).value.Text? {
      TextAt(s, p, TreeAt(s, p).value.lenDigits, TreeAt(s, p).value.data);
      ULongExact(DecValue(Digits(s, p)));
    }
    n := if kind != String then -1 else ToInt(ULong(false, DecValue(Digits(s, p))));
  }

  /** benc_string_data_offset */
  method StringDataOffset(s: bytes, p: int) returns (n: int)
    ensures TypeAt(s, p) != String ==> n == -1
    ensures TypeAt(s, p) == String ==> n == |Digits(s, p)| + 1
    ensures TreeAt(s, p).Some? && TreeAt(s, p).value.Text? ==>
      n >= 0 && IsAt(s, p + n, TreeAt(s, p).value.data)
  {
    var kind := EntityType(s, p);
    if TreeAt(s, p).Some? && TreeAt(s, p).value.Text? {
      TextAt(s, p, TreeAt(s, p).value.lenDigits, TreeAt(s, p).value.data);
    }
    if kind != String {
      return -1;
    }
    n := 0;
    while At(s, p + n) != ':'
      invariant 0 <= n <= DigitRun(s, p)
      decreases DigitRun(s, p) - n
    {
      n := n + 1;
    }
    return n + 1;
  }

  /** strncmp(key, buf, strlen(key)) == 0 */
  method SameText(key: cstr, s: bytes, q: int) returns (same: bool)
    requires 0 <= q <= |s|
    ensures same <==> IsAt(s, q, key)
  {
    var i := 0;
    while i < |key|
      invariant 0 <= i <= |key|
      invariant forall k :: 0 <= k < i ==> At(s, q + k) == key[k]
    {
      if At(s, q + i) != key[i] {
        return false;
      }
      i := i + 1;
    }
    assert |key| > 0 ==> At(s, q + (|key| - 1)) == key[|key| - 1];
    return true;
  }

  /** The key test of benc_dict_value_offset: same length, same bytes. */
  method IsKeyAt(s: bytes, q: int, key: cstr, ghost items: seq<Value>, ghost k: nat) returns (same: bool)
    requires |s| <= INT_MAX && k < |items| && k % 2 == 0 && items[k].Text?
    requires TreeAt(s, q) == Some(items[k]) && 0 <= q
    ensures same <==> IsKey(items, k, key)
  {
    hide TypeAt, TreeAt, DigitRun, IsAt, ToInt, ULong, DecValue, Digits;
    var length := StringLength(s, q);
    if |key| != length {
      return false;
    }
    var data := StringDataOffset(s, q);
    same := SameText(key, s, q + data);
    IsAtSlice(s, q + data, key);
    IsAtSlice(s, q + data, items[k].data);
  }

  /** benc_dict_value_offset */
  method DictValueOffset(s: bytes, p: int, key: cstr) returns (r: cint)
    requires |s| <= INT_MAX
    requires TypeAt(s, p) == Dict ==> LengthAt(s, p) != -1
    ensures TypeAt(s, p) != Dict ==> r == -1
    ensures TypeAt(s, p) == Dict ==> TreeAt(s, p).Some? && TreeAt(s, p).value.Dct?
    ensures TypeAt(s, p) == Dict ==>
      var items := TreeAt(s, p).value.items;
      r == match FindKey(items, key)
        case None => -1
        case Some(k) => assert |items| % 2 == 0; ChildOffset(items, k + 1)
  {
    hide TypeAt, LengthAt, TreeAt, IsAt, DigitRun, Encode, ChildOffset;
    r := -1;
    var kind := EntityType(s, p);
    if kind != Dict {
      return -1;
    }
    CompoundTree(s, p);
    ghost var v := TreeAt(s, p).value;
    var offset: cint, current_item: cint := 0, 0;
    ChildAt(s, p, v, 0);
    ChildOffsetZero(v.items);
    while At(s, p + offset + 1) != 'e' && At(s, p + offset + 1) != '\0'
      invariant 0 <= current_item <= |v.items| && current_item <= offset
      invariant offset + 1 == ChildOffset(v.items, current_item) && 0 <= p + offset
      invariant At(s, p + offset + 1) == 'e' <==> current_item == |v.items|
      invariant At(s, p + offset + 1) != '\0'
      invariant forall k :: 0 <= k < current_item ==> !IsKey(v.items, k, key)
      decreases |v.items| - current_item
    {
      ChildAt(s, p, v, current_item);
      ChildAt(s, p, v, current_item + 1);
      if current_item % 2 == 0 {
        var key_type := EntityType(s, p + offset + 1);
        if key_type != String {
          return;
        }
        var same := IsKeyAt(s, p + offset + 1, key, v.items, current_item);
        if same {
          FindKeyIs(v.items, key, current_item);
          TreeFits(s, p + offset + 1);
          InsideTree(s, p + offset + 1);
          var key_length := EntityLength(s, p + offset + 1);
          return offset + 1 + key_length;
        }
      }
      TreeFits(s, p + offset + 1);
      InsideTree(s, p + offset + 1);
      var n := EntityLength(s, p + offset + 1);
      offset := offset + n;
      current_item := current_item + 1;
    }
    assert FindKey(v.items, key).None?;
    return -1;
  }

  lemma ChildOffsetZero(items: seq<Value>)
    ensures ChildOffset(items, 0) == 1
  {
  }

  lemma FindKeyIs(items: seq<Value>, key: bytes, k: nat)
    requires k < |items| && IsKey(items, k, key)
    requires forall j :: 0 <= j < k ==> !IsKey(items, j, key)
    ensures FindKey(items, key) == Some(k)
  {
  }

  /** benc_dict_key_offset */
  method DictKeyOffset(s: bytes, p: int, index: cint) returns (r: cint)
    requires |s| <= INT_MAX
    requires TypeAt(s, p) == Dict ==> LengthAt(s, p) != -1
    ensures TypeAt(s, p) != Dict ==> r == -1
    ensures TypeAt(s, p) == Dict ==> TreeAt(s, p).Some? && TreeAt(s, p).value.Dct?
    ensures TypeAt(s, p) == Dict ==>
      var items := TreeAt(s, p).value.items;
      r == if 0 <= index && 2 * index < |items| then ChildOffset(items, 2 * index) else -1
  {
    hide TypeAt, LengthAt, TreeAt, IsAt, DigitRun, Encode, ChildOffset;
    r := -1;
    var kind := EntityType(s, p);
    if kind != Dict {
      return -1;
    }
    CompoundTree(s, p);
    if index < 0 {
      return -1;
    }
    ghost var v := TreeAt(s, p).value;
    var offset: cint, current_item: cint := 0, 0;
    ChildAt(s, p, v, 0);
    ChildOffsetZero(v.items);
    while At(s, p + offset + 1) != 'e' && At(s, p + offset + 1) != '\0'
      invariant 0 <= current_item <= |v.items| && current_item <= 2 * index && current_item <= offset
      invariant offset + 1 == ChildOffset(v.items, current_item)
      invariant At(s, p + offset + 1) == 'e' <==> current_item == |v.items|
      invariant At(s, p + offset + 1) != '\0'
      decreases |v.items| - current_item
    {
      ChildAt(s, p, v, current_item);
      ChildAt(s, p, v, current_item + 1);
      if current_item % 2 == 0 {
        var key_type := EntityType(s, p + offset + 1);
        if key_type != String {
          return;
        }
        if current_item == ToInt(index * 2) {
          return offset + 1;
        }
      }
      TreeFits(s, p + offset + 1);
      InsideTree(s, p + offset + 1);
      var n := EntityLength(s, p + offset + 1);
      offset := offset + n;
      current_item := current_item + 1;
    }
    return -1;
  }

  /** With no earlier equal key, a value sits right behind its key. */
  lemma ValueBehindKey(items: seq<Value>, j: nat)
    requires WellFormed(Dct(items)) && 2 * j < |items|
    requires forall k :: 0 <= k < j ==> items[2 * k].data != items[2 * j].data
    ensures FindKey(items, items[2 * j].data) == Some(2 * j) && 2 * j + 1 < |items|
    ensures ChildOffset(items, 2 * j + 1) == ChildOffset(items, 2 * j) + |Encode(items[2 * j])|
  {
    hide Encode;
    ChildOffsetNext(items, 2 * j);
    forall k | 0 <= k < 2 * j ensures !IsKey(items, k, items[2 * j].data) {
      if k % 2 == 0 {
        assert items[2 * (k / 2)].data != items[2 * j].data;
      }
    }
    FindKeyIs(items, items[2 * j].data, 2 * j);
  }

  /** An integer in the buffer is the sign and the digits that follow the `i`. */
  lemma NumTree(s: bytes, p: int)
    requires TypeAt(s, p) == Int
    ensures var neg := At(s, p + 1) == '-';
      var digits := Digits(s, p + if neg then 2 else 1);
      TreeAt(s, p) == if LengthAt(s, p) == -1 then None else Some(Num(neg, digits))
  {
    hide IsAt, DigitRun;
    if TreeAt(s, p).Some? {
      TreeType(s, p);
    }
    if LengthAt(s, p) != -1 {
      var v := NumSound(s, p);
      TreeAtIs(s, p, v);
      NumAt(s, p, v.neg, v.digits);
    }
  }

  /** benc_int_value */
  method IntValue(s: bytes, p: int, defval: cint) returns (r: cint)
    ensures r == if TreeAt(s, p).Some? then IntOf(TreeAt(s, p).value, defval) else defval
  {
    hide IsAt, DigitRun, TreeAt, Encode;
    var kind := EntityType(s, p);
    if kind != Int {
      if TreeAt(s, p).Some? {
        TreeType(s, p);
      }
      return defval;
    }
    NumTree(s, p);
    var i := if At(s, p + 1) == '-' then 1 else 0;
    var n := CountDigits(s, p + i + 1);
    if i + n <= 1 || At(s, p + i + n + 1) != 'e' {
      return defval;
    }
    return ToInt(Long(i == 1, DecValue(Digits(s, p + i + 1))));
  }

  // ---------------------------------------------------------------------------------------
  // Dictionaries put together pair by pair
  // ---------------------------------------------------------------------------------------

  function Pair(key: bytes, v: Value): (items: seq<Value>)
    ensures |items| == 2
  {
    [TextTree(key), v]
  }

  lemma PairWellFormed(key: bytes, v: Value)
    requires WellFormed(v)
    ensures WellFormed(Dct(Pair(key, v)))
    ensures EncodeAll(Pair(key, v)) == TextText(key) + Encode(v)
  {
    hide Dec, DecValue;
    TextTreeEncode(key);
    EncodeAllOne(v);
    assert Pair(key, v)[1..] == [v];
  }

  lemma PairsConcat(a: seq<Value>, b: seq<Value>)
    requires WellFormed(Dct(a)) && WellFormed(Dct(b))
    ensures WellFormed(Dct(a + b))
    ensures EncodeAll(a + b) == EncodeAll(a) + EncodeAll(b)
  {
    EncodeAllConcat(a, b);
    var items := a + b;
    forall k | 0 <= k < |items|
      ensures WellFormed(items[k]) && (k % 2 == 0 ==> items[k].Text?)
    {
      if k < |a| {
        assert items[k] == a[k];
      } else {
        assert items[k] == b[k - |a|];
      }
    }
  }

  /** Looking a key up in the pairs, first pair first. */
  lemma LookupPair(key: bytes, v: Value, rest: seq<Value>, wanted: bytes)
    requires WellFormed(Dct(Pair(key, v))) && WellFormed(Dct(rest))
    ensures WellFormed(Dct(Pair(key, v) + rest))
    ensures Lookup(Dct(Pair(key, v) + rest), wanted) ==
      if key == wanted then Some(v) else Lookup(Dct(rest), wanted)
  {
    hide WellFormed, Encode, EncodeAll, Dec, DecValue;
    var items := Pair(key, v) + rest;
    PairsConcat(Pair(key, v), rest);
    if key == wanted {
      FindKeyIs(items, wanted, 0);
    } else {
      FindKeySkips(items, rest, wanted, 2);
    }
  }

  lemma NoPairs()
    ensures WellFormed(Dct([])) && EncodeAll([]) == []
    ensures forall wanted :: Lookup(Dct([]), wanted) == None
  {
  }

  /** The last pair has nothing behind it. */
  lemma LookupLastPair(key: bytes, v: Value, wanted: bytes)
    requires WellFormed(Dct(Pair(key, v)))
    ensures Lookup(Dct(Pair(key, v)), wanted) == if key == wanted then Some(v) else None
  {
    hide WellFormed, Encode, EncodeAll, Dec, DecValue;
    NoPairs();
    assert Pair(key, v) + [] == Pair(key, v);
    LookupPair(key, v, [], wanted);
  }

  lemma {:induction false} FindKeySkips(items: seq<Value>, rest: seq<Value>, key: bytes, i: nat)
    requires |items| == |rest| + 2 && items[2..] == rest && 2 <= i <= |items|
    requires !IsKey(items, 0, key) && !IsKey(items, 1, key)
    ensures match FindKey(rest, key, i - 2)
      case None => FindKey(items, key, i) == None
      case Some(k) => FindKey(items, key, i) == Some(k + 2)
    ensures i == 2 ==> FindKey(items, key) == FindKey(items, key, 2)
    decreases |items| - i
  {
    if i < |items| {
      assert items[i] == rest[i - 2];
      FindKeySkips(items, rest, key, i + 1);
    }
    assert FindKey(items, key, 0) == FindKey(items, key, 1) == FindKey(items, key, 2);
  }
}
