/**
 The byte stream behind the client artifact digest
 (docker/support/scripts/client-build-environment.ts).

 For every artifact, in path order, the digest is fed the decimal length of the path, a colon,
 the path, the decimal length of the content, a colon and the content.  Paths are UTF-8 byte
 strings here; the hash itself is not modelled, its preimage is.
 */
module ArtifactDigest {
  import opened Wrappers
  import opened Sequences
  import opened Decimal

  datatype Artifact = Artifact(path: Bytes, content: Bytes)

  const COLON: Byte := 58

  function Framed(field: Bytes): Bytes {
    Digits(|field|) + [COLON] + field
  }

  function Preimage(artifacts: seq<Artifact>): Bytes {
    if artifacts == [] then []
    else Framed(artifacts[0].path) + Framed(artifacts[0].content) + Preimage(artifacts[1..])
  }

  /** `1:a`, then `3:xyz`: lengths in bytes and decimal, the path first. */
  lemma OneFileIsFramed()
    ensures Preimage([Artifact([97], [120, 121, 122])]) == [49, 58, 97, 51, 58, 120, 121, 122]
  {
    var rest: seq<Artifact> := [];
    assert [Artifact([97], [120, 121, 122])][1..] == rest;
    assert Digits(1) == [49] && Digits(3) == [51];
  }

  // ---------------------------------------------------------------- reading it back

  /** One field off the front: the digits before the first colon count the bytes after it. */
  function TakeField(stream: Bytes): Option<(Bytes, Bytes)> {
    var n := DigitRun(stream);
    if n == 0 || n == |stream| || stream[n] != COLON then None
    else
      var length := Value(stream[..n]);
      if n + 1 + length > |stream| then None
      else Some((stream[n + 1..n + 1 + length], stream[n + 1 + length..]))
  }

  function Decode(stream: Bytes): Option<seq<Artifact>>
    decreases |stream|
  {
    if stream == [] then Some([])
    else
      match TakeField(stream)
      case None => None
      case Some((path, rest)) =>
        match TakeField(rest)
        case None => None
        case Some((content, rest')) =>
          match Decode(rest')
          case None => None
          case Some(artifacts) => Some([Artifact(path, content)] + artifacts)
  }

  lemma FieldReadsBack(field: Bytes, rest: Bytes)
    ensures TakeField(Framed(field) + rest) == Some((field, rest))
  {
    var digits := Digits(|field|);
    var stream := Framed(field) + rest;
    DigitsAreDigits(|field|);
    assert stream == digits + ([COLON] + field + rest);
    DigitRunStops(digits, [COLON] + field + rest);
    var n := |digits|;
    assert stream[n] == COLON && stream[..n] == digits;
    ValueOfDigits(|field|);
    assert stream[n + 1..n + 1 + |field|] == field && stream[n + 1 + |field|..] == rest;
  }

  /** The preimage decodes to exactly the artifacts that were fed, in order. */
  lemma {:induction false} PreimageDecodes(artifacts: seq<Artifact>)
    ensures Decode(Preimage(artifacts)) == Some(artifacts)
  {
    if artifacts != [] {
      var first, rest := artifacts[0], Preimage(artifacts[1..]);
      var stream := Preimage(artifacts);
      FieldReadsBack(first.path, Framed(first.content) + rest);
      assert stream == Framed(first.path) + (Framed(first.content) + rest);
      FieldReadsBack(first.content, rest);
      DigitsAreDigits(|first.path|);
      assert stream != [];
      PreimageDecodes(artifacts[1..]);
      assert artifacts == [first] + artifacts[1..];
    }
  }

  /** Distinct artifact lists never feed the hash the same bytes. */
  lemma PreimagesAreDistinct(a: seq<Artifact>, b: seq<Artifact>)
    requires Preimage(a) == Preimage(b)
    ensures a == b
  {
    PreimageDecodes(a);
    PreimageDecodes(b);
  }

  // ---------------------------------------------------------------- the digest

  /** A path order that tells paths apart. */
  ghost predicate PathOrder(compare: (Bytes, Bytes) -> int) {
    && Comparator(compare)
    && forall p, q :: compare(p, q) <= 0 && compare(q, p) <= 0 ==> p == q
  }

  function ArtifactsAt(files: map<Bytes, Bytes>, paths: seq<Bytes>): seq<Artifact>
    requires forall p :: p in paths ==> p in files
  {
    if paths == [] then [] else [Artifact(paths[0], files[paths[0]])] + ArtifactsAt(files, paths[1..])
  }

  lemma {:induction false} PreimageAppends(a: seq<Artifact>, x: Artifact)
    ensures Preimage(a + [x]) == Preimage(a) + Framed(x.path) + Framed(x.content)
  {
    if a == [] {
      assert a + [x] == [x];
      assert Preimage([x]) == Framed(x.path) + Framed(x.content) + [];
    } else {
      assert (a + [x])[1..] == a[1..] + [x];
      PreimageAppends(a[1..], x);
    }
  }

  lemma {:induction false} ArtifactsAppend(files: map<Bytes, Bytes>, paths: seq<Bytes>, p: Bytes)
    requires p in files && forall q :: q in paths ==> q in files
    ensures ArtifactsAt(files, paths + [p]) == ArtifactsAt(files, paths) + [Artifact(p, files[p])]
  {
    if paths == [] {
      assert paths + [p] == [p];
    } else {
      assert (paths + [p])[1..] == paths[1..] + [p];
      ArtifactsAppend(files, paths[1..], p);
    }
  }

  lemma NextArtifact(files: map<Bytes, Bytes>, paths: seq<Bytes>, i: nat, fed: Bytes)
    requires i < |paths| && forall q :: q in paths ==> q in files
    requires fed == Preimage(ArtifactsAt(files, paths[..i]))
    ensures fed + Digits(|paths[i]|) + [COLON] + paths[i] + Digits(|files[paths[i]]|) + [COLON] + files[paths[i]]
            == Preimage(ArtifactsAt(files, paths[..i + 1]))
  {
    hide Preimage, ArtifactsAt, Digits;
    var path, content := paths[i], files[paths[i]];
    assert paths[..i + 1] == paths[..i] + [path];
    ArtifactsAppend(files, paths[..i], path);
    PreimageAppends(ArtifactsAt(files, paths[..i]), Artifact(path, content));
  }

  datatype DigestError = NoArtifacts

  /** What is fed to the hash for the files a glob listed, in whatever order it listed them. */
  method FeedDigest(files: map<Bytes, Bytes>, globbed: seq<Bytes>, compare: (Bytes, Bytes) -> int)
    returns (r: Result<Bytes, DigestError>)
    requires forall p :: p in globbed ==> p in files
    ensures r.Failure? <==> globbed == []
    ensures r.Success? ==> (forall p :: p in Sort(globbed, compare) ==> p in files)
                           && r.value == Preimage(ArtifactsAt(files, Sort(globbed, compare)))
  {
    SortKeepsElements(globbed, compare);
    SameElements(globbed, Sort(globbed, compare));
    var paths := Sort(globbed, compare);
    if |paths| == 0 {
      return Failure(NoArtifacts);
    }
    var fed: Bytes := [];
    for i := 0 to |paths|
      invariant fed == Preimage(ArtifactsAt(files, paths[..i]))
    {
      assert paths[i] in paths;
      var path, content := paths[i], files[paths[i]];
      NextArtifact(files, paths, i, fed);
      fed := fed + Digits(|path|) + [COLON];
      fed := fed + path;
      fed := fed + Digits(|content|) + [COLON];
      fed := fed + content;
    }
    assert paths[..|paths|] == paths;
    return Success(fed);
  }

  lemma {:induction false} ListDeterminesFiles(files: map<Bytes, Bytes>, paths: seq<Bytes>, i: nat)
    requires i < |paths| && forall p :: p in paths ==> p in files
    ensures |ArtifactsAt(files, paths)| == |paths|
    ensures ArtifactsAt(files, paths)[i] == Artifact(paths[i], files[paths[i]])
  {
    if i > 0 {
      ListDeterminesFiles(files, paths[1..], i - 1);
    } else if |paths| > 1 {
      ListDeterminesFiles(files, paths[1..], 0);
    }
  }

  /** The preimage is a faithful image of the files: equal exactly when the same paths hold the same bytes. */
  lemma PreimageIffSameFiles(
      files1: map<Bytes, Bytes>, globbed1: seq<Bytes>, files2: map<Bytes, Bytes>, globbed2: seq<Bytes>,
      compare: (Bytes, Bytes) -> int)
    requires PathOrder(compare)
    requires multiset(globbed1) == multiset(files1.Keys) && multiset(globbed2) == multiset(files2.Keys)
    ensures (forall p :: p in Sort(globbed1, compare) ==> p in files1) &&
        (forall p :: p in Sort(globbed2, compare) ==> p in files2)
    ensures (Preimage(ArtifactsAt(files1, Sort(globbed1, compare)))
             == Preimage(ArtifactsAt(files2, Sort(globbed2, compare))))
            <==> files1 == files2
  {
    SortedGlob(files1, globbed1, compare);
    SortedGlob(files2, globbed2, compare);
    var paths1, paths2 := Sort(globbed1, compare), Sort(globbed2, compare);
    if files1 == files2 {
      SortForgetsOrder(globbed1, globbed2, compare);
    }
    if Preimage(ArtifactsAt(files1, paths1)) == Preimage(ArtifactsAt(files2, paths2)) {
      PreimagesAreDistinct(ArtifactsAt(files1, paths1), ArtifactsAt(files2, paths2));
      SameArtifacts(files1, paths1, files2, paths2);
    }
  }

  lemma SortedGlob(files: map<Bytes, Bytes>, globbed: seq<Bytes>, compare: (Bytes, Bytes) -> int)
    requires multiset(globbed) == multiset(files.Keys)
    ensures forall p :: p in Sort(globbed, compare) <==> p in files
    ensures forall p :: p in globbed <==> p in files
  {
    SortKeepsElements(globbed, compare);
    SameElements(globbed, Sort(globbed, compare));
    forall p ensures p in globbed <==> p in files {
      assert p in globbed <==> p in multiset(globbed);
    }
  }

  lemma SameArtifacts(files1: map<Bytes, Bytes>, paths1: seq<Bytes>, files2: map<Bytes, Bytes>, paths2: seq<Bytes>)
    requires (forall p :: p in paths1 <==> p in files1) && (forall p :: p in paths2 <==> p in files2)
    requires ArtifactsAt(files1, paths1) == ArtifactsAt(files2, paths2)
    ensures files1 == files2
  {
    if paths1 != [] {
      ListDeterminesFiles(files1, paths1, 0);
    }
    if paths2 != [] {
      ListDeterminesFiles(files2, paths2, 0);
    }
    assert |paths1| == |paths2|;
    forall i | 0 <= i < |paths1| ensures paths1[i] == paths2[i] && files1[paths1[i]] == files2[paths2[i]] {
      ListDeterminesFiles(files1, paths1, i);
      ListDeterminesFiles(files2, paths2, i);
    }
    assert paths1 == paths2;
    forall p | p in files1 ensures files1[p] == files2[p] {
      var i :| 0 <= i < |paths1| && paths1[i] == p;
    }
    assert files1.Keys == files2.Keys;
  }
}
