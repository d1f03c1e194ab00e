/**
  Path resolution of torrentinfo: a dot-separated path picks a node of the file, list items
  by number and dict values by key; what cannot be resolved is skipped.
 */
module TorrentInfo {
  import opened CStrings
  import opened Bencode
  import opened BencodeAccess
  import opened Limits

  // ---------------------------------------------------------------------------------------
  // strtok(rnode, ".")
  // ---------------------------------------------------------------------------------------

  /** The non-empty stretches between dots; `word` is the stretch read so far. */
  function Tokens(s: bytes, word: bytes := []): (tokens: seq<bytes>)
    ensures forall k :: 0 <= k < |tokens| ==> tokens[k] != []
    ensures NoNul(s) && NoNul(word) ==> forall k :: 0 <= k < |tokens| ==> NoNul(tokens[k])
  {
    if s == [] then Word(word)
    else if s[0] == '.' then Word(word) + Tokens(s[1..], [])
    else Tokens(s[1..], word + [s[0]])
  }

  function Word(word: bytes): seq<bytes> {
    if word == [] then [] else [word]
  }

  predicate NoNul(s: bytes) {
    forall k :: 0 <= k < |s| ==> s[k] != '\0'
  }

  /** The path behind another path. */
  lemma {:induction false} TokensConcat(a: bytes, b: bytes, word: bytes)
    ensures Tokens(a + ['.'] + b, word) == Tokens(a, word) + Tokens(b, [])
    decreases |a|
  {
    var s := a + ['.'] + b;
    if a == [] {
      assert s[1..] == b;
    } else {
      assert s[1..] == a[1..] + ['.'] + b;
      TokensConcat(a[1..], b, if a[0] == '.' then [] else word + [a[0]]);
    }
  }

  /** The tokens from a position on. */
  function TokensFrom(s: bytes, pos: nat, word: bytes := []): seq<bytes>
    requires pos <= |s|
  {
    Tokens(s[pos..], word)
  }

  lemma TokensStep(s: bytes, pos: nat, word: bytes)
    requires pos <= |s|
    ensures TokensFrom(s, pos, word) ==
      if pos == |s| then Word(word)
      else if s[pos] == '.' then Word(word) + TokensFrom(s, pos + 1, [])
      else TokensFrom(s, pos + 1, word + [s[pos]])
  {
    if pos < |s| {
      assert s[pos..][1..] == s[pos + 1..];
    }
  }

  method StrTok(s: cstr, pos: nat) returns (token: Option<cstr>, next: nat)
    requires pos <= |s|
    ensures pos <= next <= |s| && (token.Some? ==> next > pos && token.value != [])
    ensures TokensFrom(s, pos) == if token.None? then [] else [token.value] + TokensFrom(s, next)
  {
    hide TokensFrom;
    next := pos;
    TokensStep(s, pos, []);
    while next < |s| && s[next] == '.'
      invariant pos <= next <= |s| && TokensFrom(s, pos) == TokensFrom(s, next)
    {
      TokensStep(s, next, []);
      next := next + 1;
    }
    TokensStep(s, next, []);
    if next == |s| {
      return None, next;
    }
    var word: cstr := [];
    while next < |s| && s[next] != '.'
      invariant pos <= next <= |s| && (word == [] ==> next < |s| && s[next] != '.') && (word != [] ==> next > pos)
      invariant TokensFrom(s, pos) == TokensFrom(s, next, word)
    {
      TokensStep(s, next, word);
      word := word + [s[next]];
      next := next + 1;
    }
    TokensStep(s, next, word);
    EmptyEnd(s);
    token := Some(word);
    if next < |s| {
      next := next + 1;
    }
  }

  lemma EmptyEnd(s: bytes)
    ensures TokensFrom(s, |s|) == []
  {
  }

  // ---------------------------------------------------------------------------------------
  // The node a path leads to
  // ---------------------------------------------------------------------------------------

  /** strtoul into an int; `Limits.ULongExact` says which numbers it leaves alone. */
  function ItemNumber(n: nat): cint {
    ToInt(ULong(false, n))
  }

  /** Numbers that do not fit can name another item: 4294967296 is item 0. */
  lemma ItemNumberWraps()
    ensures ItemNumber(0x1_0000_0000) == 0
  {
  }

  /** One token down from a node; where that is impossible the node stays. */
  function Child(v: Value, token: bytes): (w: Value)
    requires WellFormed(v)
    ensures WellFormed(w)
  {
    match v
    case Lst(items) =>
      if !AllDigits(token) then v else
      var i := ItemNumber(DecValue(token));
      if 0 <= i < |items| then items[i] else v
    case Dct(_) =>
      (match Lookup(v, token)
       case None => v
       case Some(w) => w)
    case _ => v
  }

  /** The node at the end of a path. */
  function Node(v: Value, tokens: seq<bytes>): (w: Value)
    requires WellFormed(v)
    ensures WellFormed(w)
    decreases |tokens|
  {
    if tokens == [] then v else Node(Child(v, tokens[0]), tokens[1..])
  }

  lemma {:induction false} NodeConcat(v: Value, a: seq<bytes>, b: seq<bytes>)
    requires WellFormed(v)
    ensures Node(v, a + b) == Node(Node(v, a), b)
    decreases |a|
  {
    hide Child, WellFormed;
    if a == [] {
      assert a + b == b;
    } else {
      NodeConcat(Child(v, a[0]), a[1..], b);
      assert (a + b)[1..] == a[1..] + b;
    }
  }

  /** The path "a.b" leads where "b" leads from the node at "a". */
  lemma PathConcat(v: Value, a: bytes, b: bytes)
    requires WellFormed(v)
    ensures Node(v, Tokens(a + ['.'] + b)) == Node(Node(v, Tokens(a)), Tokens(b))
  {
    hide Tokens, Node;
    TokensConcat(a, b, []);
    NodeConcat(v, Tokens(a), Tokens(b));
  }

  // ---------------------------------------------------------------------------------------
  // The resolution loop
  // ---------------------------------------------------------------------------------------

  /** for(i=0;isdigit(node_token[i]);i++) and the test for the end of the token */
  method IsNumber(token: cstr) returns (number: bool)
    ensures number <==> AllDigits(token)
  {
    var i := 0;
    while IsDigit(At(token, i))
      invariant 0 <= i <= |token| && forall k :: 0 <= k < i ==> IsDigit(token[k])
      decreases |token| - i
    {
      i := i + 1;
    }
    number := At(token, i) == '\0';
  }

  /** A list or dict must be a whole one; anything else the loop leaves alone. */
  predicate Walkable(buffer: bytes, p: int) {
    (TypeAt(buffer, p) == List || TypeAt(buffer, p) == Dict) ==> LengthAt(buffer, p) != -1
  }

  lemma WalkableTree(buffer: bytes, p: int)
    ensures TreeAt(buffer, p).Some? ==> Walkable(buffer, p) && TypeAt(buffer, p) == KindOf(TreeAt(buffer, p).value)
    ensures Walkable(buffer, p) && TreeAt(buffer, p).None? ==> TypeAt(buffer, p) != List && TypeAt(buffer, p) != Dict
  {
    hide TypeAt, LengthAt, IsAt;
    if TreeAt(buffer, p).Some? {
      TreeType(buffer, p);
    } else if Walkable(buffer, p) && (TypeAt(buffer, p) == List || TypeAt(buffer, p) == Dict) {
      CompoundTree(buffer, p);
    }
  }

  method Descend(buffer: bytes, rnode_offset: nat, token: cstr) returns (r: nat)
    requires |buffer| <= INT_MAX && Walkable(buffer, rnode_offset)
    ensures Walkable(buffer, r)
    ensures TreeAt(buffer, rnode_offset).None? ==> r == rnode_offset
    ensures TreeAt(buffer, rnode_offset).Some? ==>
      TreeAt(buffer, r) == Some(Child(TreeAt(buffer, rnode_offset).value, token))
  {
    hide IsAt, TypeAt, LengthAt, TreeAt, DigitRun, Encode, ChildOffset, FindKey, WellFormed, ItemNumber, DecValue;
    r := rnode_offset;
    WalkableTree(buffer, rnode_offset);
    ghost var v := TreeAt(buffer, rnode_offset);
    var kind := EntityType(buffer, rnode_offset);
    match kind {
      case List =>
        var number := IsNumber(token);
        if number {
          var i := ListItemOffset(buffer, rnode_offset, ItemNumber(DecValue(token)));
          ghost var k := ItemNumber(DecValue(token));
          if 0 <= k < |v.value.items| {
            ChildAt(buffer, rnode_offset, v.value, k);
          }
          if i >= 0 {
            r := rnode_offset + i;
          }
        }
      case Dict =>
        ValueAt(buffer, rnode_offset, token);
        var i := DictValueOffset(buffer, rnode_offset, token);
        if i > 0 {
          r := rnode_offset + i;
        }
      case _ =>
    }
    WalkableTree(buffer, r);
  }

  /**
    The offset always stands at the start of the node that the tokens read so far lead to; a
    file that does not begin with a whole entity is left at its start.
   */
  method Resolve(buffer: bytes, rnode: cstr) returns (rnode_offset: nat)
    requires |buffer| <= INT_MAX && Walkable(buffer, 0)
    ensures TreeAt(buffer, 0).Some? ==>
      TreeAt(buffer, rnode_offset) == Some(Node(TreeAt(buffer, 0).value, Tokens(rnode)))
    ensures TreeAt(buffer, 0).None? ==> rnode_offset == 0
  {
    hide TreeAt, Child, Tokens, WellFormed, Walkable;
    rnode_offset := 0;
    ghost var root := TreeAt(buffer, 0);
    assert rnode[0..] == rnode;
    var token, next := StrTok(rnode, 0);
    while token.Some?
      invariant next <= |rnode| && Walkable(buffer, rnode_offset)
      invariant root.None? ==> rnode_offset == 0
      invariant root.Some? ==> TreeAt(buffer, rnode_offset).Some?
      invariant root.Some? ==>
        Node(root.value, Tokens(rnode)) ==
          Node(TreeAt(buffer, rnode_offset).value, if token.Some? then [token.value] + TokensFrom(rnode, next) else [])
      decreases token.Some?, |rnode| - next
    {
      ghost var tokens := [token.value] + TokensFrom(rnode, next);
      assert tokens[1..] == TokensFrom(rnode, next);
      rnode_offset := Descend(buffer, rnode_offset, token.value);
      token, next := StrTok(rnode, next);
    }
  }
}
