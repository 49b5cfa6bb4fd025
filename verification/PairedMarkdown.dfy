/** Setting aside the code blocks of a Chinese document that repeat its English sibling's
    (`partitionPairedMarkdownDerivatives`, scripts/paired-markdown-derivatives.ts:15-63): the blocks kept
    still cover every fingerprint. */
module PairedMarkdown {
  import opened Wrappers

  /** A code block: the document it stands in, its fingerprint, and where it was found. */
  datatype Block = Block(doc: string, fingerprint: string, line: nat)

  const SUFFIX := ".zh.md"

  function Sibling(doc: string): (s: Option<string>)
    ensures s.Some? ==> |s.value| < |doc|
  {
    if |doc| >= 6 && doc[|doc| - 6..] == SUFFIX then Some(doc[..|doc| - 6] + ".md") else None
  }

  lemma SiblingExactly(doc: string, s: string)
    ensures Sibling(doc) == Some(s) <==> exists stem :: doc == stem + ".zh.md" && s == stem + ".md"
  {
    if stem :| doc == stem + ".zh.md" && s == stem + ".md" {
      assert doc[|doc| - 6..] == ".zh.md" && doc[..|doc| - 6] == stem;
    }
    if Sibling(doc) == Some(s) {
      var stem := doc[..|doc| - 6];
      assert doc == stem + ".zh.md" && s == stem + ".md";
    }
  }

  /** The blocks of one document, in order. */
  function Of(blocks: seq<Block>, doc: string): (group: seq<Block>)
    ensures forall b :: b in group <==> b in blocks && b.doc == doc
  {
    if blocks == [] then []
    else
      var last := blocks[|blocks| - 1];
      Of(blocks[..|blocks| - 1], doc) + if last.doc == doc then [last] else []
  }

  function Prints(blocks: seq<Block>): (ps: seq<string>)
    ensures |ps| == |blocks| && forall i | 0 <= i < |ps| :: ps[i] == blocks[i].fingerprint
  {
    seq(|blocks|, i requires 0 <= i < |blocks| => blocks[i].fingerprint)
  }

  /** The document repeats its sibling's blocks, all of them and in order, and the sibling has blocks. */
  predicate Derived(blocks: seq<Block>, doc: string) {
    Sibling(doc).Some? && Of(blocks, Sibling(doc).value) != [] &&
        Prints(Of(blocks, doc)) == Prints(Of(blocks, Sibling(doc).value))
  }

  /** The blocks whose documents are, or are not, derived. */
  function Keep(blocks: seq<Block>, all: seq<Block>, derived: bool): seq<Block> {
    if blocks == [] then []
    else
      var last := blocks[|blocks| - 1];
      Keep(blocks[..|blocks| - 1], all, derived) + if Derived(all, last.doc) == derived then [last] else []
  }

  method Partition(blocks: seq<Block>) returns (primary: seq<Block>, derivatives: seq<Block>)
    ensures primary == Keep(blocks, blocks, false) && derivatives == Keep(blocks, blocks, true)
  {
    hide Derived;
    var derivativeDocs := FindDerived(blocks);
    primary, derivatives := [], [];
    for i := 0 to |blocks|
      invariant primary == Keep(blocks[..i], blocks, false) && derivatives == Keep(blocks[..i], blocks, true)
    {
      assert blocks[..i + 1][..i] == blocks[..i];
      assert blocks[i] in blocks;
      if blocks[i].doc in derivativeDocs {
        derivatives := derivatives + [blocks[i]];
      } else {
        primary := primary + [blocks[i]];
      }
    }
    assert blocks[..|blocks|] == blocks;
  }

  /** The documents of lines 43-55. */
  method FindDerived(blocks: seq<Block>) returns (derivativeDocs: set<string>)
    ensures forall b | b in blocks :: b.doc in derivativeDocs <==> Derived(blocks, b.doc)
  {
    var byDoc, docs := GroupByDoc(blocks);
    derivativeDocs := {};
    for i := 0 to |docs|
      invariant forall d :: d in derivativeDocs <==> d in docs[..i] && Derived(blocks, d)
    {
      hide Prints, Of, Sibling;
      assert docs[..i + 1] == docs[..i] + [docs[i]];
      var doc := docs[i];
      var sibling := Sibling(doc);
      if sibling.Some? && sibling.value in byDoc {
        var same := SamePrints(byDoc[doc], byDoc[sibling.value]);
        if same { derivativeDocs := derivativeDocs + {doc}; }
      }
    }
    assert docs[..|docs|] == docs;
  }

  /** `byDoc` holds the blocks of every document that has any; `docs` is the order its keys were added in. */
  ghost predicate Grouped(byDoc: map<string, seq<Block>>, docs: seq<string>, blocks: seq<Block>) {
    && (forall d :: d in byDoc <==> d in docs)
    && (forall d :: d in byDoc <==> Of(blocks, d) != [])
    && (forall d | d in byDoc :: byDoc[d] == Of(blocks, d))
  }

  lemma Groups(byDoc: map<string, seq<Block>>, docs: seq<string>, blocks: seq<Block>, b: Block)
    requires Grouped(byDoc, docs, blocks)
    ensures Grouped(byDoc[b.doc := Of(blocks, b.doc) + [b]], if b.doc in byDoc then docs
                    else docs + [b.doc], blocks + [b])
  {
    OfPush(blocks, b);
    hide Of;
    assert forall d :: d in docs + [b.doc] <==> d in docs || d == b.doc;
  }

  lemma OfPush(blocks: seq<Block>, b: Block)
    ensures forall d :: Of(blocks + [b], d) == Of(blocks, d) + if b.doc == d then [b] else []
  {
    assert (blocks + [b])[..|blocks|] == blocks;
  }

  /** The map of lines 35-41. */
  method GroupByDoc(blocks: seq<Block>) returns (byDoc: map<string, seq<Block>>, docs: seq<string>)
    ensures Grouped(byDoc, docs, blocks) && forall b | b in blocks :: b.doc in docs
  {
    byDoc, docs := map[], [];
    for i := 0 to |blocks|
      invariant Grouped(byDoc, docs, blocks[..i])
    {
      var b := blocks[i];
      assert blocks[..i + 1] == blocks[..i] + [b];
      Groups(byDoc, docs, blocks[..i], b);
      if b.doc in byDoc {
        byDoc := byDoc[b.doc := byDoc[b.doc] + [b]];
      } else {
        byDoc := byDoc[b.doc := [b]];
        docs := docs + [b.doc];
      }
    }
    assert blocks[..|blocks|] == blocks;
    forall b | b in blocks ensures b.doc in docs { assert b in Of(blocks, b.doc); }
  }

  method SamePrints(candidates: seq<Block>, originals: seq<Block>) returns (same: bool)
    ensures same <==> Prints(candidates) == Prints(originals)
  {
    if |originals| != |candidates| {
      assert |Prints(candidates)| != |Prints(originals)|;
      return false;
    }
    for i := 0 to |candidates|
      invariant forall k | 0 <= k < i :: candidates[k].fingerprint == originals[k].fingerprint
    {
      if candidates[i].fingerprint != originals[i].fingerprint {
        assert Prints(candidates)[i] != Prints(originals)[i];
        return false;
      }
    }
    assert Prints(candidates) == Prints(originals);
    return true;
  }

  // ----- What the partition keeps -----

  /** Every block goes to exactly one side, as often as it occurs. */
  lemma {:induction false} PartitionConserves(blocks: seq<Block>, all: seq<Block>)
    ensures multiset(Keep(blocks, all, false)) + multiset(Keep(blocks, all, true)) == multiset(blocks)
  {
    hide *;
    KeepStep(blocks, all, false);
    KeepStep(blocks, all, true);
    if blocks != [] {
      PartitionConserves(blocks[..|blocks| - 1], all);
      assert blocks == blocks[..|blocks| - 1] + [blocks[|blocks| - 1]];
    }
  }

  lemma KeepStep(blocks: seq<Block>, all: seq<Block>, derived: bool)
    ensures blocks == [] ==> Keep(blocks, all, derived) == []
    ensures blocks != [] ==>
              multiset(Keep(blocks, all, derived)) == multiset(Keep(blocks[..|blocks| - 1], all, derived))
                + if Derived(all, blocks[|blocks| - 1].doc) == derived then multiset{blocks[|blocks| - 1]}
                    else multiset{}
  {
    hide Derived;
  }

  /** Following siblings from a document ends at one that is kept and has the very same sequence of
      fingerprints: a document is derived only from one that is itself covered. */
  lemma {:induction false} RootDocument(blocks: seq<Block>, doc: string) returns (root: string)
    requires Of(blocks, doc) != []
    ensures Of(blocks, root) != [] && !Derived(blocks, root)
    ensures Prints(Of(blocks, root)) == Prints(Of(blocks, doc))
    decreases |doc|
  {
    if Derived(blocks, doc) {
      root := RootDocument(blocks, Sibling(doc).value);
    } else {
      root := doc;
    }
  }

  /** A document's kept blocks are all its blocks or none of them. */
  lemma {:induction false} KeptWhole(blocks: seq<Block>, all: seq<Block>, doc: string)
    ensures Of(Keep(blocks, all, false), doc) == if Derived(all, doc) then [] else Of(blocks, doc)
  {
    if blocks != [] {
      var init, last := blocks[..|blocks| - 1], blocks[|blocks| - 1];
      KeptWhole(init, all, doc);
      if !Derived(all, last.doc) {
        assert Keep(blocks, all, false)[..|Keep(init, all, false)|] == Keep(init, all, false);
      } else {
        assert Keep(blocks, all, false) == Keep(init, all, false);
      }
    }
  }

  /** Whatever sequence of fingerprints a document had, some document keeps it whole among the primary blocks. */
  lemma PrimariesCover(blocks: seq<Block>, doc: string) returns (root: string)
    requires Of(blocks, doc) != []
    ensures Prints(Of(Keep(blocks, blocks, false), root)) == Prints(Of(blocks, doc))
  {
    root := RootDocument(blocks, doc);
    KeptWhole(blocks, blocks, root);
  }
}
