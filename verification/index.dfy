/** `build_text_index(options)` of crm.py: per option its text, its
    normalised key, the set of the key's words and the key's initials, plus
    an inverted index from word to options and buckets of options by the
    first character of their key.

    As elsewhere, the normalisation is a parameter `keyOf`; crm.py uses
    `_norm_key`. */
module TextIndex {
  import opened Runtime
  import opened Text

  datatype Index = Index(
    opts: seq<string>,
    norms: seq<string>,
    tokens: seq<set<string>>,
    inv: map<string, set<nat>>,
    initials: seq<string>,
    buckets: map<string, seq<nat>>)
  {
    /** The per-option lists line up with the options. */
    predicate WellFormed() {
      |norms| == |opts| && |tokens| == |opts| && |initials| == |opts|
    }
  }

  /** `"".join(w[0] for w in ws if w)`. */
  function InitialsOf(ws: seq<string>): (r: string)
    ensures |r| <= |ws|
    ensures (forall k :: 0 <= k < |ws| ==> ws[k] != []) ==>
      |r| == |ws| && forall k :: 0 <= k < |ws| ==> r[k] == ws[k][0]
  {
    if ws == [] then []
    else (if ws[0] != [] then [ws[0][0]] else []) + InitialsOf(ws[1..])
  }

  /** The initials of a key: the first character of each of its words. */
  function Initials(n: string): (r: string)
    ensures |r| == |Split(n)|
    ensures forall k :: 0 <= k < |r| ==> r[k] == Split(n)[k][0]
  {
    InitialsOf(Split(n))
  }

  /** `set(n.split())`. */
  function TokenSet(n: string): set<string> {
    set w | w in Split(n)
  }

  /** `n[:1]`: the bucket of a key. */
  function Head(n: string): (r: string)
    ensures |r| <= 1 && StartsWith(n, r)
    ensures n != [] <==> r != []
  {
    if n == [] then [] else [n[0]]
  }

  /** The words of the first `i` options' keys. */
  function Seen(tokens: seq<set<string>>, i: nat): set<string>
    requires i <= |tokens|
  {
    if i == 0 then {} else Seen(tokens, i - 1) + tokens[i - 1]
  }

  lemma {:induction false} SeenMember(tokens: seq<set<string>>, i: nat, t: string)
    requires i <= |tokens|
    ensures t in Seen(tokens, i) <==> exists j :: 0 <= j < i && t in tokens[j]
  {
    if i > 0 {
      SeenMember(tokens, i - 1, t);
    }
  }

  /** The first characters of the first `i` keys. */
  function Heads(norms: seq<string>, i: nat): set<string>
    requires i <= |norms|
  {
    if i == 0 then {} else Heads(norms, i - 1) + {Head(norms[i - 1])}
  }

  lemma {:induction false} HeadsMember(norms: seq<string>, i: nat, b: string)
    requires i <= |norms|
    ensures b in Heads(norms, i) <==> exists j :: 0 <= j < i && Head(norms[j]) == b
  {
    if i > 0 {
      HeadsMember(norms, i - 1, b);
    }
  }

  /** The inverted index after the first `i` options: each word of their
      keys maps to the options among them whose key has it. */
  ghost predicate InvUpTo(tokens: seq<set<string>>, inv: map<string, set<nat>>, i: nat)
    requires i <= |tokens|
  {
    && inv.Keys == Seen(tokens, i)
    && (forall t, j: nat :: t in inv ==> (j in inv[t] <==> j < i && t in tokens[j]))
  }

  /** The buckets after the first `i` options: each first character of
      their keys maps to the options among them whose key starts with it, in
      increasing order. */
  ghost predicate BucketsUpTo(norms: seq<string>, buckets: map<string, seq<nat>>, i: nat)
    requires i <= |norms|
  {
    && buckets.Keys == Heads(norms, i)
    && (forall b, j: nat :: b in buckets ==> (j in buckets[b] <==> j < i && Head(norms[j]) == b))
    && (forall b, k, l :: b in buckets && 0 <= k < l < |buckets[b]| ==> buckets[b][k] < buckets[b][l])
  }

  /** One entry of the inverted-index invariant. */
  lemma InvAt(tokens: seq<set<string>>, inv: map<string, set<nat>>, i: nat, t: string, j: nat)
    requires i <= |tokens| && InvUpTo(tokens, inv, i) && t in inv
    ensures j in inv[t] <==> j < i && t in tokens[j]
  {
  }

  /** One entry of the bucket invariant. */
  lemma BucketAt(norms: seq<string>, buckets: map<string, seq<nat>>, i: nat, b: string, j: nat)
    requires i <= |norms| && BucketsUpTo(norms, buckets, i) && b in buckets
    ensures j in buckets[b] <==> j < i && Head(norms[j]) == b
  {
  }

  /** The inner loop `for t in toks: inv.setdefault(t, set()).add(i)`:
      option `i` joins the entry of each of its words. */
  function AddTokens(tokens: seq<set<string>>, inv0: map<string, set<nat>>, i: nat): (inv: map<string, set<nat>>)
    requires i < |tokens| && InvUpTo(tokens, inv0, i)
    ensures InvUpTo(tokens, inv, i + 1)
  {
    var inv := map t | t in inv0.Keys + tokens[i] ::
      (if t in inv0 then inv0[t] else {}) + (if t in tokens[i] then {i} else {});
    assert inv.Keys == Seen(tokens, i + 1);
    forall t, j: nat | t in inv
      ensures j in inv[t] <==> j < i + 1 && t in tokens[j]
    {
      if t in inv0 {
        InvAt(tokens, inv0, i, t, j);
      } else {
        SeenMember(tokens, i, t);
        assert !(j < i && t in tokens[j]);
      }
    }
    inv
  }

  /** The bucket of a first character before option `i` is added: the
      options before `i` whose key starts with it. */
  lemma PrevBucket(norms: seq<string>, buckets0: map<string, seq<nat>>, i: nat, b: string, j: nat)
    requires i < |norms| && BucketsUpTo(norms, buckets0, i)
    ensures j in (if b in buckets0 then buckets0[b] else []) <==> j < i && Head(norms[j]) == b
  {
    if b in buckets0 {
      BucketAt(norms, buckets0, i, b, j);
    } else {
      HeadsMember(norms, i, b);
      assert !(j < i && Head(norms[j]) == b);
    }
  }

  /** Appending option `i` to its bucket. */
  method AddToBucket(norms: seq<string>, buckets0: map<string, seq<nat>>, i: nat) returns (buckets: map<string, seq<nat>>)
    requires i < |norms| && BucketsUpTo(norms, buckets0, i)
    ensures BucketsUpTo(norms, buckets, i + 1)
  {
    var b := Head(norms[i]);
    var prev := if b in buckets0 then buckets0[b] else [];
    buckets := buckets0[b := prev + [i]];
    assert buckets.Keys == Heads(norms, i + 1);
    forall c, j: nat | c in buckets
      ensures j in buckets[c] <==> j < i + 1 && Head(norms[j]) == c
    {
      if c != b {
        assert buckets[c] == buckets0[c];
        BucketAt(norms, buckets0, i, c, j);
      } else {
        PrevBucket(norms, buckets0, i, b, j);
        assert j in buckets[c] <==> j in prev || j == i;
      }
    }
    forall c, k, l | c in buckets && 0 <= k < l < |buckets[c]|
      ensures buckets[c][k] < buckets[c][l]
    {
      if c == b && l == |prev| {
        assert buckets[c][k] in prev;
        PrevBucket(norms, buckets0, i, b, buckets[c][k]);
      }
    }
  }

  /** `build_text_index(options)`. */
  method BuildIndex(keyOf: string -> string, options: seq<string>) returns (idx: Index)
    ensures idx.WellFormed() && idx.opts == options
    ensures forall i :: 0 <= i < |options| ==>
      && idx.norms[i] == keyOf(options[i])
      && idx.tokens[i] == TokenSet(idx.norms[i])
      && idx.initials[i] == Initials(idx.norms[i])
    // a word is indexed exactly when some option's key has it, and then it
    // lists exactly those options
    ensures InvUpTo(idx.tokens, idx.inv, |options|)
    // each bucket lists, in order, exactly the options whose key starts
    // with it
    ensures BucketsUpTo(idx.norms, idx.buckets, |options|)
  {
    var norms := seq(|options|, i requires 0 <= i < |options| => keyOf(options[i]));
    var tokens := seq(|options|, i requires 0 <= i < |options| => TokenSet(norms[i]));
    var inv: map<string, set<nat>> := map[];
    var i := 0;
    while i < |options|
      invariant i <= |options|
      invariant InvUpTo(tokens, inv, i)
    {
      inv := AddTokens(tokens, inv, i);
      i := i + 1;
    }
    var initials := seq(|options|, i requires 0 <= i < |options| => Initials(norms[i]));
    var buckets: map<string, seq<nat>> := map[];
    i := 0;
    while i < |options|
      invariant i <= |options|
      invariant BucketsUpTo(norms, buckets, i)
    {
      buckets := AddToBucket(norms, buckets, i);
      i := i + 1;
    }
    idx := Index(options, norms, tokens, inv, initials, buckets);
  }

  /** A word is in the inverted index exactly when some option's key has
      it, and then it lists exactly those options. */
  lemma InvExact(idx: Index, w: string)
    requires idx.WellFormed() && InvUpTo(idx.tokens, idx.inv, |idx.opts|)
    ensures w in idx.inv <==> exists i :: 0 <= i < |idx.opts| && w in idx.tokens[i]
    ensures w in idx.inv ==> forall i: nat :: i in idx.inv[w] <==> i < |idx.opts| && w in idx.tokens[i]
  {
    SeenMember(idx.tokens, |idx.opts|, w);
    if w in idx.inv {
      forall i: nat
        ensures i in idx.inv[w] <==> i < |idx.opts| && w in idx.tokens[i]
      {
        InvAt(idx.tokens, idx.inv, |idx.opts|, w, i);
      }
    }
  }

  /** A first character has a bucket exactly when some key starts with it. */
  lemma BucketsExact(idx: Index, b: string)
    requires idx.WellFormed() && BucketsUpTo(idx.norms, idx.buckets, |idx.opts|)
    ensures b in idx.buckets <==> exists i :: 0 <= i < |idx.opts| && Head(idx.norms[i]) == b
  {
    HeadsMember(idx.norms, |idx.opts|, b);
  }
}
