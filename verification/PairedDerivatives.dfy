/**
 Separating Chinese code blocks that repeat their English siblings
 (docker/support/scripts/paired-markdown-derivatives.ts).

 A document may derive from a document that itself derives from another; the point of the
 partition is that nothing is lost by checking the primary blocks only.
 */
module PairedDerivatives {
  import opened Wrappers
  import opened Sequences

  type Path = string

  const CHINESE := ".zh.md"
  const PLAIN := ".md"

  function UnsuffixedSibling(doc: Path): Option<Path> {
    var stem := |doc| - |CHINESE|;
    if stem >= 0 && doc[stem..] == CHINESE then Some(doc[..stem] + PLAIN) else None
  }

  /** A Chinese document derives from the document of the same stem, and no other document derives from any. */
  lemma SiblingHasTheStem(doc: Path)
    ensures forall stem :: UnsuffixedSibling(stem + ".zh.md") == Some(stem + ".md")
    ensures UnsuffixedSibling(doc).Some? <==> exists stem :: doc == stem + ".zh.md"
  {
    forall stem ensures UnsuffixedSibling(stem + ".zh.md") == Some(stem + ".md") {
      assert (stem + ".zh.md")[|stem|..] == ".zh.md" && (stem + ".zh.md")[..|stem|] == stem;
    }
    if UnsuffixedSibling(doc).Some? {
      assert doc == doc[..|doc| - 6] + ".zh.md";
    }
  }

  function OfDoc<T(!new)>(docOf: T -> Path, doc: Path): T -> bool {
    block => docOf(block) == doc
  }

  /** The blocks of one document, in order. */
  function BlocksOf<T(!new)>(blocks: seq<T>, docOf: T -> Path, doc: Path): seq<T> {
    Filter(blocks, OfDoc(docOf, doc))
  }

  function Prints<T(!new)>(blocks: seq<T>, fingerprintOf: T -> string): (r: seq<string>)
    ensures |r| == |blocks| && forall i :: 0 <= i < |r| ==> r[i] == fingerprintOf(blocks[i])
  {
    seq(|blocks|, i requires 0 <= i < |blocks| => fingerprintOf(blocks[i]))
  }

  /** A document whose blocks repeat those of its unsuffixed sibling, fingerprint by fingerprint. */
  predicate Derived<T(!new)>(blocks: seq<T>, docOf: T -> Path, fingerprintOf: T -> string, doc: Path) {
    && UnsuffixedSibling(doc).Some?
    && BlocksOf(blocks, docOf, doc) != []
    && Prints(BlocksOf(blocks, docOf, doc), fingerprintOf)
       == Prints(BlocksOf(blocks, docOf, UnsuffixedSibling(doc).value), fingerprintOf)
  }

  /** What makes a document a derivative: some block, and the fingerprints of the document of the same stem. */
  lemma DerivedIff<T(!new)>(blocks: seq<T>, docOf: T -> Path, fingerprintOf: T -> string, stem: string)
    ensures Derived(blocks, docOf, fingerprintOf, stem + ".zh.md") <==>
              && (exists block :: block in blocks && docOf(block) == stem + ".zh.md")
              && Prints(BlocksOf(blocks, docOf, stem + ".zh.md"), fingerprintOf)
                 == Prints(BlocksOf(blocks, docOf, stem + ".md"), fingerprintOf)
  {
    var mine := BlocksOf(blocks, docOf, stem + ".zh.md");
    SiblingHasTheStem(stem + ".zh.md");
    if mine != [] {
      assert mine[0] in mine;
    }
  }

  function IsDerivative<T(!new)>(blocks: seq<T>, docOf: T -> Path, fingerprintOf: T -> string): T -> bool {
    block => Derived(blocks, docOf, fingerprintOf, docOf(block))
  }

  function IsPrimary<T(!new)>(blocks: seq<T>, docOf: T -> Path, fingerprintOf: T -> string): T -> bool {
    block => !Derived(blocks, docOf, fingerprintOf, docOf(block))
  }

  // ---------------------------------------------------------------- the loops

  ghost predicate Groups<T(!new)>(byDoc: map<Path, seq<T>>, blocks: seq<T>, docOf: T -> Path) {
    forall doc ::
      if doc in byDoc then byDoc[doc] == BlocksOf(blocks, docOf, doc) != [] else BlocksOf(blocks, docOf, doc) == []
  }

  lemma GroupNext<T(!new)>(byDoc: map<Path, seq<T>>, blocks: seq<T>, k: nat, docOf: T -> Path)
    requires k < |blocks| && Groups(byDoc, blocks[..k], docOf)
    ensures var doc := docOf(blocks[k]);
            Groups(byDoc[doc := (if doc in byDoc then byDoc[doc] else []) + [blocks[k]]], blocks[..k + 1], docOf)
  {
    hide Filter;
    var mine := docOf(blocks[k]);
    forall doc
      ensures BlocksOf(blocks[..k + 1], docOf, doc)
           == BlocksOf(blocks[..k], docOf, doc) + if doc == mine then [blocks[k]] else []
    {
      FilterNext(blocks, k, OfDoc(docOf, doc));
    }
  }

  method GroupByDoc<T(!new)>(blocks: seq<T>, docOf: T -> Path) returns (byDoc: map<Path, seq<T>>)
    ensures Groups(byDoc, blocks, docOf)
  {
    byDoc := map[];
    for k := 0 to |blocks|
      invariant Groups(byDoc, blocks[..k], docOf)
    {
      hide Groups;
      GroupNext(byDoc, blocks, k, docOf);
      var doc := docOf(blocks[k]);
      if doc in byDoc {
        byDoc := byDoc[doc := byDoc[doc] + [blocks[k]]];
      } else {
        byDoc := byDoc[doc := [] + [blocks[k]]];
      }
    }
    assert blocks[..|blocks|] == blocks;
  }

  /** Whether two groups have the same length and agree fingerprint by fingerprint. */
  method Repeats<T(!new)>(candidates: seq<T>, originals: seq<T>, fingerprintOf: T -> string) returns (r: bool)
    ensures r <==> Prints(candidates, fingerprintOf) == Prints(originals, fingerprintOf)
  {
    if |originals| != |candidates| {
      assert |Prints(candidates, fingerprintOf)| != |Prints(originals, fingerprintOf)|;
      return false;
    }
    for i := 0 to |candidates|
      invariant forall j :: 0 <= j < i ==> fingerprintOf(candidates[j]) == fingerprintOf(originals[j])
    {
      if fingerprintOf(candidates[i]) != fingerprintOf(originals[i]) {
        assert Prints(candidates, fingerprintOf)[i] != Prints(originals, fingerprintOf)[i];
        return false;
      }
    }
    return true;
  }

  method DerivativeDocs<T(!new)>(
      ghost blocks: seq<T>, byDoc: map<Path, seq<T>>, ghost docOf: T -> Path, fingerprintOf: T -> string)
    returns (docs: set<Path>)
    requires Groups(byDoc, blocks, docOf)
    ensures forall doc :: doc in docs <==> Derived(blocks, docOf, fingerprintOf, doc)
  {
    docs := {};
    var pending := byDoc.Keys;
    while pending != {}
      invariant pending <= byDoc.Keys
      invariant forall doc :: doc in docs <==>
          doc in byDoc && doc !in pending && Derived(blocks, docOf, fingerprintOf, doc)
      decreases |pending|
    {
      var doc :| doc in pending;
      pending := pending - {doc};
      var sibling := UnsuffixedSibling(doc);
      if sibling.Some? && sibling.value in byDoc {
        var repeats := Repeats(byDoc[doc], byDoc[sibling.value], fingerprintOf);
        if repeats {
          docs := docs + {doc};
        }
      }
    }
  }

  /** The two filters of the input, in its order. */
  method PartitionPairedMarkdownDerivatives<T(!new)>(blocks: seq<T>, docOf: T -> Path, fingerprintOf: T -> string)
    returns (primary: seq<T>, derivatives: seq<T>)
    ensures primary == Filter(blocks, IsPrimary(blocks, docOf, fingerprintOf))
    ensures derivatives == Filter(blocks, IsDerivative(blocks, docOf, fingerprintOf))
  {
    var byDoc := GroupByDoc(blocks, docOf);
    var docs := DerivativeDocs(blocks, byDoc, docOf, fingerprintOf);
    primary, derivatives := [], [];
    for k := 0 to |blocks|
      invariant primary == Filter(blocks[..k], IsPrimary(blocks, docOf, fingerprintOf))
      invariant derivatives == Filter(blocks[..k], IsDerivative(blocks, docOf, fingerprintOf))
    {
      hide Filter, Derived;
      FilterNext(blocks, k, IsPrimary(blocks, docOf, fingerprintOf));
      FilterNext(blocks, k, IsDerivative(blocks, docOf, fingerprintOf));
      if docOf(blocks[k]) in docs {
        derivatives := derivatives + [blocks[k]];
      } else {
        primary := primary + [blocks[k]];
      }
    }
    assert blocks[..|blocks|] == blocks;
  }

  // ---------------------------------------------------------------- nothing is lost

  lemma {:induction false} SplitKeepsElements<T(!new)>(s: seq<T>, keep: T -> bool, drop: T -> bool)
    requires forall x :: drop(x) <==> !keep(x)
    ensures multiset(Filter(s, keep)) + multiset(Filter(s, drop)) == multiset(s)
  {
    if s != [] {
      SplitKeepsElements(s[1..], keep, drop);
      assert s == [s[0]] + s[1..];
    }
  }

  /** Every block goes to exactly one side. */
  lemma PartitionIsASplit<T(!new)>(blocks: seq<T>, docOf: T -> Path, fingerprintOf: T -> string)
    ensures multiset(Filter(blocks, IsPrimary(blocks, docOf, fingerprintOf)))
            + multiset(Filter(blocks, IsDerivative(blocks, docOf, fingerprintOf))) == multiset(blocks)
  {
    SplitKeepsElements(blocks, IsPrimary(blocks, docOf, fingerprintOf), IsDerivative(blocks, docOf, fingerprintOf));
  }

  ghost predicate RepeatsRoot<T(!new)>(
      blocks: seq<T>, docOf: T -> Path, fingerprintOf: T -> string, doc: Path, root: Path) {
    && !Derived(blocks, docOf, fingerprintOf, root)
    && Prints(BlocksOf(blocks, docOf, root), fingerprintOf) == Prints(BlocksOf(blocks, docOf, doc), fingerprintOf)
  }

  /** However long the chain of siblings, it ends in a primary document with the same fingerprints in the same order. */
  lemma {:induction false} EveryChainHasARoot<T(!new)>(
      blocks: seq<T>, docOf: T -> Path, fingerprintOf: T -> string, doc: Path)
    returns (root: Path)
    ensures RepeatsRoot(blocks, docOf, fingerprintOf, doc, root)
    decreases |doc|
  {
    root := doc;
    if Derived(blocks, docOf, fingerprintOf, doc) {
      root := EveryChainHasARoot(blocks, docOf, fingerprintOf, UnsuffixedSibling(doc).value);
    }
  }

  lemma PrimaryKeepsWholeDocs<T(!new)>(blocks: seq<T>, docOf: T -> Path, fingerprintOf: T -> string, doc: Path)
    requires !Derived(blocks, docOf, fingerprintOf, doc)
    ensures BlocksOf(Filter(blocks, IsPrimary(blocks, docOf, fingerprintOf)), docOf, doc)
        == BlocksOf(blocks, docOf, doc)
  {
    hide Derived;
    FilterTwice(blocks, IsPrimary(blocks, docOf, fingerprintOf), OfDoc(docOf, doc), OfDoc(docOf, doc));
  }

  /** The fingerprint sequence of every document is that of some document whose blocks are all primary. */
  lemma PrimaryCoversEveryDoc<T(!new)>(blocks: seq<T>, docOf: T -> Path, fingerprintOf: T -> string, doc: Path)
    ensures var primary := Filter(blocks, IsPrimary(blocks, docOf, fingerprintOf));
            exists root :: Prints(BlocksOf(primary, docOf, root), fingerprintOf)
                == Prints(BlocksOf(blocks, docOf, doc), fingerprintOf)
  {
    var root := EveryChainHasARoot(blocks, docOf, fingerprintOf, doc);
    PrimaryKeepsWholeDocs(blocks, docOf, fingerprintOf, root);
  }

  ghost predicate Shows<T(!new)>(blocks: seq<T>, fingerprintOf: T -> string, mark: string) {
    exists block :: block in blocks && fingerprintOf(block) == mark
  }

  /** So the primary blocks show exactly the fingerprints all blocks show. */
  lemma PrimaryShowsEveryFingerprint<T(!new)>(
      blocks: seq<T>, docOf: T -> Path, fingerprintOf: T -> string, mark: string)
    ensures Shows(Filter(blocks, IsPrimary(blocks, docOf, fingerprintOf)), fingerprintOf, mark) <==>
        Shows(blocks, fingerprintOf, mark)
  {
    var primary := Filter(blocks, IsPrimary(blocks, docOf, fingerprintOf));
    if Shows(blocks, fingerprintOf, mark) {
      var block :| block in blocks && fingerprintOf(block) == mark;
      var doc := docOf(block);
      PrimaryCoversEveryDoc(blocks, docOf, fingerprintOf, doc);
      var root :| Prints(BlocksOf(primary, docOf, root), fingerprintOf)
          == Prints(BlocksOf(blocks, docOf, doc), fingerprintOf);
      var mine, theirs := BlocksOf(blocks, docOf, doc), BlocksOf(primary, docOf, root);
      assert block in mine;
      var i :| 0 <= i < |mine| && mine[i] == block;
      assert Prints(mine, fingerprintOf)[i] == Prints(theirs, fingerprintOf)[i];
      assert theirs[i] in primary;
    }
  }
}
