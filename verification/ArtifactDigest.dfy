/** The digest of the built client artifacts: which byte stream is hashed, and why an accepted
  * build record pins the exact artifacts (scripts/client-build-environment.ts). */
module ArtifactDigest {
  import opened Wrappers

  newtype Byte = x: int | 0 <= x < 256

  type Bytes = seq<Byte>

  const ZERO: Byte := 48
  const COLON: Byte := 58

  datatype Artifact = Artifact(path: Bytes, content: Bytes)

  datatype Digest = Digest(fileCount: nat, sha256: string)

  /** A length in decimal digits. */
  function Decimal(n: nat): Bytes {
    if n < 10 then [ZERO + n as Byte] else Decimal(n / 10) + [ZERO + (n % 10) as Byte]
  }

  /** One framed field: its byte length, a colon, its bytes. */
  function Field(bytes: Bytes): Bytes {
    Decimal(|bytes|) + [COLON] + bytes
  }

  function Entry(file: Artifact): Bytes {
    Field(file.path) + Field(file.content)
  }

  /** The stream fed to the hash. */
  function Framed(files: seq<Artifact>): Bytes {
    if files == [] then [] else Framed(files[..|files| - 1]) + Entry(files[|files| - 1])
  }

  /** A length's digits are those of its decimal notation: none is leading, and read from the left
    * they make the length. */
  lemma {:induction false} DecimalNotation(n: nat)
    ensures var d := Decimal(n);
            && d != [] && (forall i :: 0 <= i < |d| ==> 48 <= d[i] <= 57)
            && (d[0] == 48 ==> n == 0) && DigitsValue(d) == n
  {
    if n >= 10 {
      DecimalNotation(n / 10);
      assert Decimal(n)[..|Decimal(n)| - 1] == Decimal(n / 10);
    }
  }

  function DigitsValue(d: Bytes): int {
    if d == [] then 0 else 10 * DigitsValue(d[..|d| - 1]) + (d[|d| - 1] as int - 48)
  }

  /** What one more file adds to the stream: length, colon and path, then length, colon and content. */
  lemma NextFile(files: seq<Artifact>, f: Artifact)
    ensures Framed(files + [f]) ==
            Framed(files) + (Decimal(|f.path|) + [58] + f.path + (Decimal(|f.content|) + [58] + f.content))
  {
    assert (files + [f])[..|files|] == files;
  }

  /** The incremental hash object; digesting applies the hash function to everything fed. */
  class Hasher {
    var fed: Bytes

    constructor ()
      ensures fed == []
    {
      fed := [];
    }

    method Update(bytes: Bytes)
      modifies this
      ensures fed == old(fed) + bytes
    {
      fed := fed + bytes;
    }
  }

  /** The digest of a sorted artifact listing; an empty build is an error. */
  method ClientArtifactDigest(files: seq<Artifact>, sha256: Bytes -> string) returns (r: Result<Digest, ()>)
    ensures r == if files == [] then Err(()) else Ok(Digest(|files|, sha256(Framed(files))))
  {
    if files == [] {
      return Err(());
    }
    var digest := new Hasher();
    for k := 0 to |files|
      invariant digest.fed == Framed(files[..k])
    {
      digest.Update(Decimal(|files[k].path|) + [COLON]);
      digest.Update(files[k].path);
      digest.Update(Decimal(|files[k].content|) + [COLON]);
      digest.Update(files[k].content);
      assert files[..k + 1][..k] == files[..k];
      assert digest.fed == Framed(files[..k]) + Entry(files[k]);
    }
    assert files[..|files|] == files;
    return Ok(Digest(|files|, sha256(digest.fed)));
  }

  // ---- reading the stream back ----

  /** Digits up to a colon, and what follows it. */
  function ReadLength(s: Bytes, so_far: nat): Option<(nat, Bytes)> {
    if s == [] then None
    else if s[0] == COLON then Some((so_far, s[1..]))
    else if ZERO <= s[0] < COLON then ReadLength(s[1..], so_far * 10 + (s[0] - ZERO) as nat)
    else None
  }

  function ReadField(s: Bytes): (r: Option<(Bytes, Bytes)>)
    ensures r.Some? ==> |r.value.1| < |s|
  {
    var length := ReadLength(s, 0);
    ReadLengthShortens(s, 0);
    if length.None? || length.value.0 > |length.value.1| then None
    else Some((length.value.1[..length.value.0], length.value.1[length.value.0..]))
  }

  lemma {:induction false} ReadLengthShortens(s: Bytes, so_far: nat)
    ensures ReadLength(s, so_far).Some? ==> |ReadLength(s, so_far).value.1| < |s|
  {
    if s != [] && s[0] != COLON && ZERO <= s[0] < COLON {
      ReadLengthShortens(s[1..], so_far * 10 + (s[0] - ZERO) as nat);
    }
  }

  function ReadArtifacts(s: Bytes): Option<seq<Artifact>>
    decreases |s|
  {
    if s == [] then Some([])
    else
      var path := ReadField(s);
      if path.None? then None
      else
        var content := ReadField(path.value.1);
        if content.None? then None
        else match ReadArtifacts(content.value.1)
          case None => None
          case Some(rest) => Some([Artifact(path.value.0, content.value.0)] + rest)
  }

  lemma {:induction false} DecimalReads(n: nat, rest: Bytes)
    ensures ReadLength(Decimal(n) + rest, 0) == ReadLength(rest, n)
  {
    if n < 10 {
      assert (Decimal(n) + rest)[1..] == rest;
    } else {
      var last := [ZERO + (n % 10) as Byte];
      DecimalReads(n / 10, last + rest);
      assert Decimal(n) + rest == Decimal(n / 10) + (last + rest);
      assert (last + rest)[1..] == rest;
    }
  }

  lemma FieldReads(bytes: Bytes, rest: Bytes)
    ensures ReadField(Field(bytes) + rest) == Some((bytes, rest))
  {
    var after := [COLON] + (bytes + rest);
    DecimalReads(|bytes|, after);
    assert Field(bytes) + rest == Decimal(|bytes|) + after;
    assert after[1..] == bytes + rest;
    assert (bytes + rest)[..|bytes|] == bytes && (bytes + rest)[|bytes|..] == rest;
  }

  lemma {:induction false} FramedFrom(file: Artifact, rest: seq<Artifact>)
    ensures Framed([file] + rest) == Entry(file) + Framed(rest)
  {
    if rest == [] {
      assert [file] + rest == [file] && [file][..0] == [];
    } else {
      var init, last := rest[..|rest| - 1], rest[|rest| - 1];
      FramedFrom(file, init);
      assert ([file] + rest)[..|rest|] == [file] + init && ([file] + rest)[|rest|] == last;
      Associate(Entry(file), Framed(init), Entry(last));
    }
  }

  lemma Associate(a: Bytes, b: Bytes, c: Bytes)
    ensures a + b + c == a + (b + c)
  {
  }

  /** The stream can be read back, so it determines the listing. */
  lemma {:induction false} FramedReadsBack(files: seq<Artifact>)
    ensures ReadArtifacts(Framed(files)) == Some(files)
  {
    if files != [] {
      var file, rest := files[0], files[1..];
      FramedReadsBack(rest);
      assert files == [file] + rest;
      FramedFrom(file, rest);
      Associate(Field(file.path), Field(file.content), Framed(rest));
      FieldReads(file.path, Field(file.content) + Framed(rest));
      FieldReads(file.content, Framed(rest));
    }
  }

  lemma FramedIsInjective(a: seq<Artifact>, b: seq<Artifact>)
    requires Framed(a) == Framed(b)
    ensures a == b
  {
    FramedReadsBack(a);
    FramedReadsBack(b);
  }

  /** The comparison made before a recorded build is consumed. */
  predicate Accepted(recorded: Digest, current: Digest) {
    recorded.fileCount == current.fileCount && recorded.sha256 == current.sha256
  }

  /** Unless the two streams collide, a record is accepted exactly for the recorded artifacts. */
  lemma AcceptedRecordPinsArtifacts(built: seq<Artifact>, found: seq<Artifact>, sha256: Bytes -> string)
    requires sha256(Framed(built)) == sha256(Framed(found)) ==> Framed(built) == Framed(found)
    ensures Accepted(Digest(|built|, sha256(Framed(built))), Digest(|found|, sha256(Framed(found)))) <==> built == found
  {
    if Framed(built) == Framed(found) {
      FramedIsInjective(built, found);
    }
  }
}
