/**
  Texts that introduce values by name, as a request path does: free text, a separator, a name,
  an equals sign, and so on. Where strstr finds `name=` in such a text, whatever stands in the
  free texts, equals signs included.
 */
module Blocks {
  import opened CStrings
  import opened NetText

  /** Free text, and the separator and the name behind it. */
  datatype Block = Block(text: bytes, sep: byte, name: bytes)

  predicate Lacks(s: bytes, c: byte) {
    c !in s
  }

  predicate EndsWith(s: bytes, w: bytes) {
    |w| <= |s| && s[|s| - |w|..] == w
  }

  /** Each name is followed by its equals sign; `last` is the text behind all of them. */
  function Render(bs: seq<Block>, last: bytes): bytes {
    if bs == [] then last
    else bs[0].text + ([bs[0].sep] + bs[0].name + ['='] + Render(bs[1..], last))
  }

  /** Where the text behind the j-th equals sign starts. */
  function ValueAt(bs: seq<Block>, j: nat): nat
    requires j < |bs|
  {
    |bs[0].text| + 2 + |bs[0].name| + if j == 0 then 0 else ValueAt(bs[1..], j - 1)
  }

  /** The text behind the j-th equals sign, up to the next separator or the end. */
  function Behind(bs: seq<Block>, last: bytes, j: nat): bytes
    requires j < |bs|
  {
    if j + 1 < |bs| then bs[j + 1].text else last
  }

  /** What stands behind that text. */
  function SepBehind(bs: seq<Block>, j: nat): byte
    requires j < |bs|
  {
    if j + 1 < |bs| then bs[j + 1].sep else '\0'
  }

  predicate Separated(bs: seq<Block>) {
    forall i :: 0 <= i < |bs| ==> (bs[i].sep == '?' || bs[i].sep == '&') && Lacks(bs[i].name, '=')
  }

  /** What is searched for: a name, an equals sign and at most one more character. */
  predicate Searchable(name: bytes, tail: bytes) {
    && Lacks(name, '=') && Lacks(name, '?') && Lacks(name, '&')
    && |tail| <= 1 && Lacks(tail, '?') && Lacks(tail, '&') && Lacks(tail, '=')
  }

  // ---------------------------------------------------------------------------------------
  // One block
  // ---------------------------------------------------------------------------------------

  /** Where a word with one equals sign can stand in x, a separator, a name, an equals sign and y. */
  predicate StandsIn(x: bytes, name: bytes, y: bytes, word: bytes, tail: bytes, k: int) {
    var w := word + ['='] + tail;
    || IsAt(x, k, w)
    || (EndsWith(name, word) && IsAt(y, 0, tail) && k == |x| + 1 + |name| - |word|)
    || IsAt(y, k - |x| - |name| - 2, w)
  }

  lemma ByteIs(s: bytes, k: int, w: bytes, j: nat)
    requires IsAt(s, k, w) && j < |w|
    ensures 0 <= k + j < |s| && s[k + j] == w[j]
  {
  }

  /** In front of its equals sign a place of the word shows no equals sign and no separator. */
  lemma WordBytes(s: bytes, word: bytes, tail: bytes, k: int)
    requires Searchable(word, tail) && IsAt(s, k, word + ['='] + tail)
    ensures 0 <= k && k + |word| < |s| && s[k + |word|] == '='
    ensures forall i :: k <= i < k + |word| ==> s[i] != '=' && s[i] != '?' && s[i] != '&' && s[i] == word[i - k]
    ensures tail != [] ==>
      k + |word| + 1 < |s| && s[k + |word| + 1] == tail[0] && tail[0] != '?' && tail[0] != '&'
  {
    var w := word + ['='] + tail;
    ByteIs(s, k, w, |word|);
    forall i | k <= i < k + |word| ensures s[i] == word[i - k] {
      ByteIs(s, k, w, i - k);
    }
    if tail != [] {
      ByteIs(s, k, w, |word| + 1);
    }
  }

  /** A place in the text is a place in x, at the name, or in y. */
  lemma StandsOnlyIn(x: bytes, sep: byte, name: bytes, y: bytes, word: bytes, tail: bytes, k: int)
    requires (sep == '?' || sep == '&') && Lacks(name, '=') && Searchable(word, tail)
    requires IsAt(x + ([sep] + name + ['='] + y), k, word + ['='] + tail)
    ensures StandsIn(x, name, y, word, tail, k)
  {
    var s, w := x + ([sep] + name + ['='] + y), word + ['='] + tail;
    var e, at := k + |word|, |x| + 1 + |name|;
    WordBytes(s, word, tail, k);
    assert s[|x|] == sep && s[at] == '=';
    assert forall i :: |x| < i < at ==> s[i] == name[i - |x| - 1];
    hide Searchable;
    if e < |x| {
      InFirst(x, [sep] + name + ['='] + y, w, k);
    } else if e > at {
      InLast(x + [sep] + name + ['='], y, w, k);
    } else {
      AtName(x, sep, name, y, word, tail, k);
    }
  }

  lemma InFirst(x: bytes, rest: bytes, w: bytes, k: int)
    requires IsAt(x + rest, k, w) && k + |w| <= |x|
    ensures IsAt(x, k, w)
  {
    forall j | 0 <= j < |w| ensures x[k + j] == w[j] {
      assert (x + rest)[k + j] == x[k + j];
    }
  }

  lemma InLast(front: bytes, y: bytes, w: bytes, k: int)
    requires IsAt(front + y, k, w) && k >= |front|
    ensures IsAt(y, k - |front|, w)
  {
    forall j | 0 <= j < |w| ensures y[k - |front| + j] == w[j] {
      assert (front + y)[k + j] == y[k - |front| + j];
    }
  }

  lemma AtName(x: bytes, sep: byte, name: bytes, y: bytes, word: bytes, tail: bytes, k: int)
    requires (sep == '?' || sep == '&') && Searchable(word, tail) && k == |x| + 1 + |name| - |word|
    requires IsAt(x + ([sep] + name + ['='] + y), k, word + ['='] + tail)
    ensures EndsWith(name, word) && IsAt(y, 0, tail)
  {
    var s := x + ([sep] + name + ['='] + y);
    WordBytes(s, word, tail, k);
    assert s[|x|] == sep;
    assert k > |x|;
    forall j | 0 <= j < |word| ensures name[|name| - |word| + j] == word[j] {
      assert s[k + j] == name[|name| - |word| + j];
    }
    assert name[|name| - |word|..] == word;
    assert tail != [] ==> s[|x| + |name| + 2] == y[0];
  }

  lemma StandsInIs(x: bytes, sep: byte, name: bytes, y: bytes, word: bytes, tail: bytes, k: int)
    requires StandsIn(x, name, y, word, tail, k)
    ensures IsAt(x + ([sep] + name + ['='] + y), k, word + ['='] + tail)
  {
    var s, w := x + ([sep] + name + ['='] + y), word + ['='] + tail;
    assert forall i :: 0 <= i < |x| ==> s[i] == x[i];
    assert forall i :: |x| < i <= |x| + |name| ==> s[i] == name[i - |x| - 1];
    assert forall i :: |x| + |name| + 2 <= i < |s| ==> s[i] == y[i - |x| - |name| - 2];
    if EndsWith(name, word) && IsAt(y, 0, tail) && k == |x| + 1 + |name| - |word| {
      forall j | 0 <= j < |w| ensures s[k + j] == w[j] {
        if j < |word| {
          assert name[|name| - |word|..][j] == word[j];
        } else if j > |word| {
          assert w[j] == tail[j - |word| - 1];
        }
      }
    }
  }

  lemma StandsHere(x: bytes, sep: byte, name: bytes, y: bytes, word: bytes, tail: bytes, k: int)
    requires (sep == '?' || sep == '&') && Lacks(name, '=') && Searchable(word, tail)
    ensures IsAt(x + ([sep] + name + ['='] + y), k, word + ['='] + tail) <==> StandsIn(x, name, y, word, tail, k)
  {
    hide StandsIn, IsAt, Lacks, Searchable;
    if IsAt(x + ([sep] + name + ['='] + y), k, word + ['='] + tail) {
      StandsOnlyIn(x, sep, name, y, word, tail, k);
    }
    if StandsIn(x, name, y, word, tail, k) {
      StandsInIs(x, sep, name, y, word, tail, k);
    }
  }

  /** strstr on one block: in the free text, at the name, or in the text behind it. */
  function FirstOf(x: bytes, name: bytes, y: bytes, word: bytes, tail: bytes): Option<nat> {
    var w := word + ['='] + tail;
    if Find(x, w).Some? then Find(x, w)
    else if EndsWith(name, word) && IsAt(y, 0, tail) then Some(|x| + 1 + |name| - |word|)
    else if Find(y, w).Some? then Some(|x| + |name| + 2 + Find(y, w).value)
    else None
  }

  lemma BlockFinds(x: bytes, sep: byte, name: bytes, y: bytes, word: bytes, tail: bytes)
    requires (sep == '?' || sep == '&') && Lacks(name, '=') && Searchable(word, tail)
    ensures Find(x + ([sep] + name + ['='] + y), word + ['='] + tail) == FirstOf(x, name, y, word, tail)
  {
    hide IsAt, Searchable, Lacks, Find, StandsIn, FirstOf;
    var s, w := x + ([sep] + name + ['='] + y), word + ['='] + tail;
    forall k: nat ensures IsAt(s, k, w) <==> StandsIn(x, name, y, word, tail, k) {
      StandsHere(x, sep, name, y, word, tail, k);
    }
    FirstIn(x, name, y, word, tail);
    FindIs(s, w, FirstOf(x, name, y, word, tail));
  }

  lemma FirstIn(x: bytes, name: bytes, y: bytes, word: bytes, tail: bytes)
    ensures var r := FirstOf(x, name, y, word, tail);
      && (r.Some? ==> StandsIn(x, name, y, word, tail, r.value))
      && forall k: nat :: StandsIn(x, name, y, word, tail, k) ==> r.Some? && r.value <= k
  {
    hide Find;
    var w, r := word + ['='] + tail, FirstOf(x, name, y, word, tail);
    forall k: nat | StandsIn(x, name, y, word, tail, k) ensures r.Some? && r.value <= k {
      assert IsAt(x, k, w) ==> Find(x, w).Some? && Find(x, w).value <= k;
      var m := k - |x| - |name| - 2;
      assert IsAt(y, m, w) ==> Find(y, w).Some? && Find(y, w).value <= m;
    }
  }

  // ---------------------------------------------------------------------------------------
  // All blocks
  // ---------------------------------------------------------------------------------------

  /** No free text up to the j-th name contains the word. */
  predicate FreeTo(bs: seq<Block>, w: bytes, j: nat)
    requires j < |bs|
  {
    forall i :: 0 <= i <= j ==> Find(bs[i].text, w).None?
  }

  lemma FreeStep(bs: seq<Block>, w: bytes, j: nat)
    requires j < |bs|
    ensures FreeTo(bs, w, j) <==> Find(bs[0].text, w).None? && (j > 0 ==> FreeTo(bs[1..], w, j - 1))
  {
    hide Find;
    assert forall i :: 1 <= i <= j ==> bs[1..][i - 1] == bs[i];
    assert forall i :: 0 <= i < j ==> bs[1..][i] == bs[i + 1];
  }

  /**
    The first name that ends in the word looked for is where it is found if and only if no free
    text in front of that name contains the word.
   */
  lemma {:induction false} FoundAt(bs: seq<Block>, last: bytes, word: bytes, j: nat)
    requires j < |bs| && Separated(bs) && Searchable(word, []) && EndsWith(bs[j].name, word)
    requires forall i :: 0 <= i < j ==> !EndsWith(bs[i].name, word)
    ensures After(Render(bs, last), word + ['=']) == Some(ValueAt(bs, j)) <==> FreeTo(bs, word + ['='], j)
    decreases j
  {
    hide Find, Searchable, EndsWith, Lacks, FreeTo, ValueAt, IsAt;
    var b, rest, w := bs[0], Render(bs[1..], last), word + ['='];
    assert w + [] == w;
    BlockFinds(b.text, b.sep, b.name, rest, word, []);
    FreeStep(bs, w, j);
    StepTo(bs, last, j);
    EmptyAt(rest);
    if j > 0 {
      forall i | 0 <= i < j - 1 ensures !EndsWith(bs[1..][i].name, word) {
        assert bs[1..][i] == bs[i + 1];
      }
      FoundAt(bs[1..], last, word, j - 1);
    }
  }

  lemma EmptyAt(s: bytes)
    ensures IsAt(s, 0, [])
  {
  }

  /** Some name ends in the word, with the tail behind its equals sign. */
  predicate Named(bs: seq<Block>, last: bytes, word: bytes, tail: bytes) {
    exists i :: 0 <= i < |bs| && EndsWith(bs[i].name, word) && IsAt(Render(bs[i + 1..], last), 0, tail)
  }

  predicate InText(bs: seq<Block>, w: bytes) {
    exists i :: 0 <= i < |bs| && Find(bs[i].text, w).Some?
  }

  /** Whether the word is found at all. */
  lemma {:induction false} FoundSomewhere(bs: seq<Block>, last: bytes, word: bytes, tail: bytes)
    requires Separated(bs) && Searchable(word, tail)
    ensures var w := word + ['='] + tail;
      Find(Render(bs, last), w).Some? <==> InText(bs, w) || Named(bs, last, word, tail) || Find(last, w).Some?
  {
    hide Find, Searchable, EndsWith, Lacks, IsAt;
    var w := word + ['='] + tail;
    if bs != [] {
      BlockFinds(bs[0].text, bs[0].sep, bs[0].name, Render(bs[1..], last), word, tail);
      FoundSomewhere(bs[1..], last, word, tail);
      SplitText(bs, w);
      SplitNamed(bs, last, word, tail);
    }
  }

  lemma SplitText(bs: seq<Block>, w: bytes)
    requires bs != []
    ensures InText(bs, w) <==> Find(bs[0].text, w).Some? || InText(bs[1..], w)
  {
    hide Find;
    assert forall i :: 1 <= i < |bs| ==> bs[1..][i - 1] == bs[i];
    assert forall i :: 0 <= i < |bs| - 1 ==> bs[1..][i] == bs[i + 1];
  }

  lemma SplitNamed(bs: seq<Block>, last: bytes, word: bytes, tail: bytes)
    requires bs != []
    ensures Named(bs, last, word, tail) <==>
      (EndsWith(bs[0].name, word) && IsAt(Render(bs[1..], last), 0, tail)) || Named(bs[1..], last, word, tail)
  {
    hide EndsWith, IsAt, Render;
    var more := bs[1..];
    forall i | 0 <= i < |more| ensures more[i] == bs[i + 1] && more[i + 1..] == bs[(i + 1) + 1..] {
    }
    if Named(bs, last, word, tail) {
      var i :| 0 <= i < |bs| && EndsWith(bs[i].name, word) && IsAt(Render(bs[i + 1..], last), 0, tail);
      if i > 0 {
        assert more[i - 1] == bs[i] && more[(i - 1) + 1..] == bs[i + 1..];
      }
    }
    if Named(more, last, word, tail) {
      var i :| 0 <= i < |more| && EndsWith(more[i].name, word) && IsAt(Render(more[i + 1..], last), 0, tail);
      assert EndsWith(bs[i + 1].name, word) && IsAt(Render(bs[(i + 1) + 1..], last), 0, tail);
    }
  }

  /** Behind the j-th equals sign stands the next free text, up to its separator or the end. */
  lemma {:induction false} ValueStands(bs: seq<Block>, last: bytes, j: nat)
    requires j < |bs|
    ensures var p, v := ValueAt(bs, j), Behind(bs, last, j);
      IsAt(Render(bs, last), p, v) && At(Render(bs, last), p + |v|) == SepBehind(bs, j)
    decreases j
  {
    hide IsAt, Render, At, Behind, SepBehind, ValueAt;
    RenderFirst(bs, last);
    var front, rest := bs[0].text + [bs[0].sep] + bs[0].name + ['='], Render(bs[1..], last);
    StepTo(bs, last, j);
    if j == 0 {
      FirstStands(bs[1..], last);
      StandsBehind(front, rest, 0, Behind(bs, last, 0));
    } else {
      ValueStands(bs[1..], last, j - 1);
      StandsBehind(front, rest, ValueAt(bs[1..], j - 1), Behind(bs, last, j));
    }
  }

  lemma StepTo(bs: seq<Block>, last: bytes, j: nat)
    requires j < |bs|
    ensures var front := |bs[0].text + [bs[0].sep] + bs[0].name + ['=']|;
      ValueAt(bs, j) == front + if j == 0 then 0 else ValueAt(bs[1..], j - 1)
    ensures j > 0 ==>
      Behind(bs, last, j) == Behind(bs[1..], last, j - 1) && SepBehind(bs, j) == SepBehind(bs[1..], j - 1)
    ensures j == 0 ==>
      && Behind(bs, last, 0) == (if bs[1..] == [] then last else bs[1..][0].text)
      && SepBehind(bs, 0) == if bs[1..] == [] then '\0' else bs[1..][0].sep
  {
  }

  lemma RenderFirst(bs: seq<Block>, last: bytes)
    requires bs != []
    ensures Render(bs, last) == (bs[0].text + [bs[0].sep] + bs[0].name + ['=']) + Render(bs[1..], last)
  {
  }

  lemma FirstStands(bs: seq<Block>, last: bytes)
    ensures var v := if bs == [] then last else bs[0].text;
      && IsAt(Render(bs, last), 0, v)
      && At(Render(bs, last), |v|) == if bs == [] then '\0' else bs[0].sep
  {
  }

  lemma StandsBehind(front: bytes, rest: bytes, p: nat, v: bytes)
    requires IsAt(rest, p, v)
    ensures IsAt(front + rest, |front| + p, v)
    ensures At(front + rest, |front| + p + |v|) == At(rest, p + |v|)
  {
    var s := front + rest;
    forall k | 0 <= k < |v| ensures s[|front| + p + k] == v[k] {
      IsAtByte(rest, p, v, k);
    }
  }

  predicate PartsLack(bs: seq<Block>, c: byte) {
    forall i :: 0 <= i < |bs| ==> Lacks(bs[i].text, c) && bs[i].sep != c && Lacks(bs[i].name, c)
  }

  /** A character other than the equals sign is in the text if and only if it is in one of its parts. */
  lemma {:induction false} RenderLacks(bs: seq<Block>, last: bytes, c: byte)
    requires c != '='
    ensures Lacks(Render(bs, last), c) <==> Lacks(last, c) && PartsLack(bs, c)
  {
    hide PartsLack, Lacks;
    PartsLackStep(bs, c);
    if bs != [] {
      RenderLacks(bs[1..], last, c);
      OneLacks(bs[0].text, bs[0].sep, bs[0].name, Render(bs[1..], last), c);
    }
  }

  lemma PartsLackStep(bs: seq<Block>, c: byte)
    ensures bs == [] ==> PartsLack(bs, c)
    ensures bs != [] ==> (PartsLack(bs, c) <==>
      Lacks(bs[0].text, c) && bs[0].sep != c && Lacks(bs[0].name, c) && PartsLack(bs[1..], c))
  {
    hide Lacks;
    assert forall i :: 1 <= i < |bs| ==> bs[1..][i - 1] == bs[i];
    assert forall i :: 0 <= i < |bs| - 1 ==> bs[1..][i] == bs[i + 1];
  }

  lemma OneLacks(x: bytes, sep: byte, name: bytes, y: bytes, c: byte)
    requires c != '='
    ensures Lacks(x + ([sep] + name + ['='] + y), c) <==>
      Lacks(x, c) && sep != c && Lacks(name, c) && Lacks(y, c)
  {
  }
}
