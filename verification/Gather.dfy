/** The first step of T0Comp.Generate: all words that the entry points reach, through any number of
  * references.  Exploring is breadth first, with the words seen so far and a queue.
  */
module Gathering {
  import opened Wrappers
  import opened Basics
  import opened Opcodes

  /** GetReferences. */
  function Refs(w: Word): set<string> {
    if w.Code? then set i | 0 <= i < |w.code| && w.code[i].Call? :: w.code[i].target else {}
  }

  /** All references out of s lead to words of s. */
  ghost predicate Closed(words: map<string, Word>, s: set<string>) {
    forall n | n in s :: n in words && Refs(words[n]) <= s
  }

  function Names(order: seq<string>): (s: set<string>)
    ensures forall n :: n in s <==> n in order
  {
    set n | n in order
  }

  predicate NoRepeats(s: seq<string>) {
    forall i, j | 0 <= i < j < |s| :: s[i] != s[j]
  }

  /** Words seen so far are known and necessary; the queue holds those not explored yet. */
  ghost predicate Exploring(words: map<string, Word>, entries: set<string>, order: seq<string>, tx: seq<string>) {
    && NoRepeats(order) && Names(order) <= words.Keys
    && (forall n | n in tx :: n in order)
    && (forall n | n in order :: n in tx || Refs(words[n]) <= Names(order))
    && Needed(words, entries, Names(order))
  }

  /** s is part of every closed set of words that contains the entry points. */
  ghost predicate Needed(words: map<string, Word>, entries: set<string>, s: set<string>) {
    forall c | Closed(words, c) && entries <= c :: s <= c
  }

  method Visit(words: map<string, Word>, ghost entries: set<string>, n: string, order: seq<string>, tx: seq<string>)
      returns (ok: bool, order': seq<string>, tx': seq<string>)
    requires NoRepeats(order) && Names(order) <= words.Keys && (forall m | m in tx :: m in order)
    requires Needed(words, entries, Names(order) + {n})
    ensures ok <==> n in words || n in order
    ensures ok ==> NoRepeats(order') && Names(order') == Names(order) + {n} && Names(order') <= words.Keys
    ensures ok ==> if n in order then order' == order && tx' == tx else tx' == tx + [n]
  {
    if n in order {
      return true, order, tx;
    }
    if n !in words {
      return false, order, tx;
    }
    ok, order', tx' := true, order + [n], tx + [n];
  }

  /** The words that the generated code consists of: the least closed set that contains the entry
    * points, each word once.  It fails exactly when there is no such set, because some reference
    * leads to no word. */
  method Gather(words: map<string, Word>, entries: seq<string>) returns (r: Option<seq<string>>)
    ensures r.Some? ==> NoRepeats(r.value) && Names(entries) <= Names(r.value)
    ensures r.Some? ==> Closed(words, Names(r.value)) && Needed(words, Names(entries), Names(r.value))
    ensures r.None? ==> !exists c :: Closed(words, c) && Names(entries) <= c
  {
    hide *;
    var ok, order, tx := Start(words, entries);
    if !ok {
      return None;
    }
    while tx != []
      invariant Exploring(words, Names(entries), order, tx) && Names(entries) <= Names(order)
      decreases |words.Keys - Names(order)|, |tx|
    {
      ghost var before := order;
      assert tx == [tx[0]] + tx[1..];
      ok, order, tx := ExploreWord(words, Names(entries), tx[0], order, tx[1..]);
      if !ok {
        return None;
      }
      Explored(words, Names(entries), order, tx);
      Shrinks(words, before, order);
    }
    Explored(words, Names(entries), order, tx);
    r := Some(order);
  }

  lemma Explored(words: map<string, Word>, entries: set<string>, order: seq<string>, tx: seq<string>)
    requires Exploring(words, entries, order, tx)
    ensures NoRepeats(order) && Names(order) <= words.Keys && Needed(words, entries, Names(order))
    ensures tx == [] ==> Closed(words, Names(order))
  {
    hide Refs, Needed;
  }

  /** The loop over the entry points. */
  method Start(words: map<string, Word>, entries: seq<string>) returns (ok: bool, order: seq<string>, tx: seq<string>)
    ensures ok ==> Exploring(words, Names(entries), order, tx) && Names(entries) == Names(order)
    ensures !ok ==> !exists c :: Closed(words, c) && Names(entries) <= c
  {
    ok, order, tx := true, [], [];
    for i := 0 to |entries|
      invariant NoRepeats(order) && Names(order) == Names(entries[..i]) <= words.Keys
      invariant forall n :: n in order <==> n in tx
    {
      assert entries[i] in entries && entries[..i + 1] == entries[..i] + [entries[i]];
      ok, order, tx := Visit(words, Names(entries), entries[i], order, tx);
      if !ok {
        return;
      }
    }
    assert entries[..|entries|] == entries;
  }

  lemma Shrinks(words: map<string, Word>, before: seq<string>, order: seq<string>)
    requires Names(before) <= Names(order) <= words.Keys
    ensures |words.Keys - Names(order)| <= |words.Keys - Names(before)|
    ensures Names(before) != Names(order) ==> |words.Keys - Names(order)| < |words.Keys - Names(before)|
  {
    var a, b := words.Keys - Names(order), words.Keys - Names(before);
    SubsetCardinality(a, b);
  }

  /** The inner loop: the references of one word. */
  method ExploreWord(words: map<string, Word>, ghost entries: set<string>, w: string, order: seq<string>,
                     tx: seq<string>)
      returns (ok: bool, order': seq<string>, tx': seq<string>)
    requires Exploring(words, entries, order, [w] + tx)
    ensures ok ==> Exploring(words, entries, order', tx') && Names(order) <= Names(order')
    ensures ok && Names(order') == Names(order) ==> tx' == tx
    ensures !ok ==> !exists c :: Closed(words, c) && entries <= c
  {
    ok, order', tx' := true, order, tx;
    assert w in [w] + tx;
    if words[w].Leaf? {
      return;
    }
    var code := words[w].code;
    for i := 0 to |code|
      invariant Names(order) <= Names(order') <= words.Keys && NoRepeats(order')
      invariant Needed(words, entries, Names(order'))
      invariant forall n | n in tx' :: n in order'
      invariant forall n | n in order' && n !in order :: n in tx'
      invariant tx <= tx' && (Names(order') == Names(order) ==> tx' == tx)
      invariant forall k | 0 <= k < i && code[k].Call? :: code[k].target in order'
    {
      if code[i].Call? {
        var t := code[i].target;
        assert t in Refs(words[w]);
        ok, order', tx' := Visit(words, entries, t, order', tx');
        if !ok {
          return;
        }
      }
    }
  }
}
