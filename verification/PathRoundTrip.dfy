/**
  torrentinfo against the tree it walks: the path that spells a way through a tree, list items
  by number and dict values by key, with a dot between each two, is resolved to the node at the
  end of that way.
 */
module PathRoundTrip {
  import opened CStrings
  import opened Bencode
  import opened BencodeAccess
  import opened Limits
  import opened TorrentInfo

  /** One step down a tree. */
  datatype Turn = Item(i: nat) | Value(key: bytes)

  /** The value behind the first key that is equal; keys stand at even places. */
  ghost predicate IsValueOf(items: seq<Bencode.Value>, key: bytes, w: Bencode.Value) {
    exists k: nat ::
      && 2 * k + 1 < |items| && items[2 * k].Text? && items[2 * k].data == key && items[2 * k + 1] == w
      && forall j: nat :: j < k ==> items[2 * j].Text? ==> items[2 * j].data != key
  }

  /** The way `turns` leads from v to w. */
  ghost predicate Leads(v: Bencode.Value, turns: seq<Turn>, w: Bencode.Value)
    decreases |turns|
  {
    if turns == [] then v == w
    else match turns[0]
      case Item(i) => v.Lst? && i < |v.items| && Leads(v.items[i], turns[1..], w)
      case Value(key) => v.Dct? && exists u :: IsValueOf(v.items, key, u) && Leads(u, turns[1..], w)
  }

  /** Keys that a path can spell, and numbers that an int holds. */
  predicate Spellable(turns: seq<Turn>) {
    forall t :: t in turns ==>
      match t
      case Item(i) => i <= INT_MAX
      case Value(key) => key != [] && '.' !in key
  }

  function Spelled(t: Turn): bytes {
    match t
    case Item(i) => Dec(i)
    case Value(key) => key
  }

  /** "a.b.c" */
  function PathOf(turns: seq<Turn>): bytes {
    if turns == [] then []
    else if |turns| == 1 then Spelled(turns[0])
    else Spelled(turns[0]) + ['.'] + PathOf(turns[1..])
  }

  function Words(turns: seq<Turn>): seq<bytes> {
    if turns == [] then [] else [Spelled(turns[0])] + Words(turns[1..])
  }

  // ---------------------------------------------------------------------------------------
  // The path and its tokens
  // ---------------------------------------------------------------------------------------

  lemma {:induction false} OneToken(s: bytes, word: bytes)
    requires '.' !in s && word + s != []
    ensures Tokens(s, word) == [word + s]
    decreases |s|
  {
    if s == [] {
      assert word + s == word;
    } else {
      OneToken(s[1..], word + [s[0]]);
      assert word + [s[0]] + s[1..] == word + s;
    }
  }

  lemma SpelledHasNoDot(t: Turn)
    requires Spellable([t])
    ensures Spelled(t) != [] && '.' !in Spelled(t)
  {
    assert t in [t];
    match t {
      case Item(i) => assert forall k :: 0 <= k < |Dec(i)| ==> IsDigit(Dec(i)[k]);
      case Value(_) =>
    }
  }

  lemma {:induction false} PathTokens(turns: seq<Turn>)
    requires Spellable(turns)
    ensures Tokens(PathOf(turns)) == Words(turns)
    decreases |turns|
  {
    hide Tokens, Spelled;
    if turns == [] {
      NoTokens();
    } else {
      var first := Spelled(turns[0]);
      assert turns[0] in turns;
      SpelledHasNoDot(turns[0]);
      OneToken(first, []);
      assert [] + first == first;
      if |turns| > 1 {
        assert forall t :: t in turns[1..] ==> t in turns;
        PathTokens(turns[1..]);
        TokensConcat(first, PathOf(turns[1..]), []);
      } else {
        assert turns[1..] == [];
      }
    }
  }

  lemma NoTokens()
    ensures Tokens([]) == []
  {
  }

  // ---------------------------------------------------------------------------------------
  // The tokens and the tree
  // ---------------------------------------------------------------------------------------

  lemma ItemChild(v: Bencode.Value, i: nat)
    requires WellFormed(v) && v.Lst? && i < |v.items| && i <= INT_MAX
    ensures Child(v, Dec(i)) == v.items[i]
  {
    hide WellFormed, Dec, DecValue, ULong, ToInt;
    DecValueDec(i);
    ULongExact(i);
  }

  lemma ValueChild(v: Bencode.Value, key: bytes, w: Bencode.Value)
    requires WellFormed(v) && v.Dct? && IsValueOf(v.items, key, w)
    ensures Child(v, key) == w
  {
    var k: nat :|
      && 2 * k + 1 < |v.items| && v.items[2 * k].Text? && v.items[2 * k].data == key && v.items[2 * k + 1] == w
      && forall j: nat :: j < k ==> v.items[2 * j].Text? ==> v.items[2 * j].data != key;
    forall m | 0 <= m < 2 * k ensures !IsKey(v.items, m, key) {
      if m % 2 == 0 {
        assert v.items[2 * (m / 2)] == v.items[m];
      }
    }
    hide WellFormed;
    FindKeyIs(v.items, key, 2 * k);
  }

  lemma {:induction false} WordsLead(v: Bencode.Value, turns: seq<Turn>, w: Bencode.Value)
    requires WellFormed(v) && Spellable(turns) && Leads(v, turns, w)
    ensures Node(v, Words(turns)) == w
    decreases |turns|
  {
    hide WellFormed, Child, IsValueOf;
    if turns != [] {
      assert turns[0] in turns && Words(turns)[1..] == Words(turns[1..]);
      assert forall t :: t in turns[1..] ==> t in turns;
      match turns[0] {
        case Item(i) =>
          ItemChild(v, i);
          WordsLead(Child(v, Dec(i)), turns[1..], w);
        case Value(key) =>
          var u :| IsValueOf(v.items, key, u) && Leads(u, turns[1..], w);
          ValueChild(v, key, u);
          WordsLead(Child(v, key), turns[1..], w);
      }
    }
  }

  /** The path that spells a way is resolved to the node at its end. */
  lemma PathFinds(v: Bencode.Value, turns: seq<Turn>, w: Bencode.Value)
    requires WellFormed(v) && Spellable(turns) && Leads(v, turns, w)
    ensures Node(v, Tokens(PathOf(turns))) == w
  {
    hide WellFormed, Leads, Node, Tokens;
    PathTokens(turns);
    WordsLead(v, turns, w);
  }
}
