/**
 * The version stamp of build.py: the digest dictionary becomes one summary
 * line per entry, all lines go through a single SHA-256, and the version is
 * the stripped base version, a hyphen, that aggregate digest and, unless the
 * build is a release, `-dev`.
 */
module Stamp {
  import opened PyStr
  import opened Pipeline

  /** `file + " " + digest + "\n"`. */
  function SummaryLine(e: Entry): string
  {
    e.path + " " + e.digest + "\n"
  }

  /** Everything fed to the aggregate hash: the summary lines of the dictionary, in its order. */
  function HashInput(hashes: seq<Entry>): string
  {
    if hashes == [] then "" else SummaryLine(hashes[0]) + HashInput(hashes[1..])
  }

  lemma {:induction false} HashInputAppend(hashes: seq<Entry>, e: Entry)
    ensures HashInput(hashes + [e]) == HashInput(hashes) + SummaryLine(e)
  {
    if hashes == [] {
      assert hashes + [e] == [e];
    } else {
      assert (hashes + [e])[1..] == hashes[1..] + [e];
      HashInputAppend(hashes[1..], e);
    }
  }

  /**
   * The second loop of build.py: each summary line is passed to the running
   * hash in turn. Feeding a SHA-256 object piece by piece gives the digest of
   * the concatenation, so `fed` stands for the accumulator.
   */
  method AggregateDigest(hashes: seq<Entry>, sha: Hasher) returns (digest: string)
    ensures digest == sha(HashInput(hashes))
  {
    var fed := "";
    for i := 0 to |hashes|
      invariant fed == HashInput(hashes[..i])
    {
      var summary := hashes[i].path + " " + hashes[i].digest + "\n";
      HashInputAppend(hashes[..i], hashes[i]);
      assert hashes[..i + 1] == hashes[..i] + [hashes[i]];
      fed := fed + summary;
    }
    assert hashes[..|hashes|] == hashes;
    digest := sha(fed);
  }

  /** What `hexdigest()` of SHA-256 returns: 64 lower-case hexadecimal digits. */
  predicate IsHexDigest(d: string)
  {
    |d| == 64 && forall i :: 0 <= i < |d| ==> d[i] in "0123456789abcdef"
  }

  /** Entries whose summary lines can be told apart: no newline in a path, a hex digest each. */
  predicate Summarizable(hashes: seq<Entry>)
  {
    forall i :: 0 <= i < |hashes| ==> '\n' !in hashes[i].path && IsHexDigest(hashes[i].digest)
  }

  /** Before the newline that ends a summary line there is none. */
  lemma NoNewlineBefore(e: Entry, rest: string, k: nat)
    requires '\n' !in e.path && IsHexDigest(e.digest)
    requires k < |e.path| + 65
    ensures (SummaryLine(e) + rest)[k] != '\n'
  {
    var s := SummaryLine(e) + rest;
    if k < |e.path| {
      assert s[k] == e.path[k];
    } else if k > |e.path| {
      assert s[k] == e.digest[k - |e.path| - 1];
    }
  }

  /** A summary line followed by anything can be split back into the entry and the rest. */
  lemma LineSplit(e1: Entry, e2: Entry, r1: string, r2: string)
    requires '\n' !in e1.path && IsHexDigest(e1.digest)
    requires '\n' !in e2.path && IsHexDigest(e2.digest)
    requires SummaryLine(e1) + r1 == SummaryLine(e2) + r2
    ensures e1 == e2 && r1 == r2
  {
    var s := SummaryLine(e1) + r1;
    var n1, n2 := |e1.path|, |e2.path|;
    assert s[n1 + 65] == '\n';
    assert s[n2 + 65] == (SummaryLine(e2) + r2)[n2 + 65] == '\n';
    if n1 < n2 {
      NoNewlineBefore(e2, r2, n1 + 65);
    } else if n2 < n1 {
      NoNewlineBefore(e1, r1, n2 + 65);
    }
    var l1, l2 := SummaryLine(e1), SummaryLine(e2);
    assert l1 == s[..n1 + 66] == l2;
    assert e1.path == l1[..n1] && e2.path == l2[..n2];
    assert e1.digest == l1[n1 + 1..n1 + 65] && e2.digest == l2[n2 + 1..n2 + 65];
    assert r1 == s[n1 + 66..] && r2 == (SummaryLine(e2) + r2)[n2 + 66..];
  }

  /** The hash input determines the digest dictionary it was made from. */
  lemma {:induction false} HashInputInjective(h1: seq<Entry>, h2: seq<Entry>)
    requires Summarizable(h1) && Summarizable(h2)
    requires HashInput(h1) == HashInput(h2)
    ensures h1 == h2
  {
    if h1 != [] && h2 != [] {
      LineSplit(h1[0], h2[0], HashInput(h1[1..]), HashInput(h2[1..]));
      HashInputInjective(h1[1..], h2[1..]);
      assert h1 == [h1[0]] + h1[1..] && h2 == [h2[0]] + h2[1..];
    }
  }

  /**
   * Two trees with the same paths in the same order, in which one file's raw
   * text has a different digest, feed different input to the aggregate hash:
   * their versions differ unless SHA-256 itself collides.
   */
  lemma ContentChangeChangesHashInput(files1: seq<SourceFile>, files2: seq<SourceFile>, sha: Hasher, k: nat)
    requires |files1| == |files2|
    requires forall i :: 0 <= i < |files1| ==> files1[i].path == files2[i].path && '\n' !in files1[i].path
    requires forall i, j :: 0 <= i < j < |files1| ==> files1[i].path != files1[j].path
    requires forall i :: 0 <= i < |files1| ==> IsHexDigest(sha(files1[i].content)) && IsHexDigest(sha(files2[i].content))
    requires k < |files1| && sha(files1[k].content) != sha(files2[k].content)
    ensures HashInput(Digests(files1, sha)) != HashInput(Digests(files2, sha))
  {
    DigestsInOrder(files1, sha);
    DigestsInOrder(files2, sha);
    var h1, h2 := Digests(files1, sha), Digests(files2, sha);
    assert h1[k].digest != h2[k].digest;
    if HashInput(h1) == HashInput(h2) {
      HashInputInjective(h1, h2);
      assert false;
    }
  }

  /** The version string: stripped base, hyphen, aggregate digest, and `-dev` unless released. */
  function VersionString(base: string, aggregate: string, release: bool): string
  {
    Strip(base) + "-" + aggregate + (if release then "" else "-dev")
  }

  /** The version is built the way build.py builds it, one `+=` after another. */
  method StampVersion(base: string, aggregate: string, release: bool) returns (version: string)
    ensures version == VersionString(base, aggregate, release)
  {
    version := Strip(base);
    version := version + "-" + aggregate;
    if !release {
      version := version + "-dev";
    }
  }

  /**
   * The version reads back as its parts: with hex digests, equal versions
   * have equal stripped bases, equal aggregate digests and the same release flag.
   */
  lemma VersionInjective(base1: string, aggregate1: string, release1: bool,
                         base2: string, aggregate2: string, release2: bool)
    requires IsHexDigest(aggregate1) && IsHexDigest(aggregate2)
    requires VersionString(base1, aggregate1, release1) == VersionString(base2, aggregate2, release2)
    ensures Strip(base1) == Strip(base2) && aggregate1 == aggregate2 && release1 == release2
  {
    PartsInjective(Strip(base1), aggregate1, release1, Strip(base2), aggregate2, release2);
  }

  /** `stem + "-" + digest`, then `-dev` unless released, splits back into its parts. */
  lemma PartsInjective(stem1: string, aggregate1: string, release1: bool,
                       stem2: string, aggregate2: string, release2: bool)
    requires IsHexDigest(aggregate1) && IsHexDigest(aggregate2)
    requires stem1 + "-" + aggregate1 + (if release1 then "" else "-dev")
          == stem2 + "-" + aggregate2 + (if release2 then "" else "-dev")
    ensures stem1 == stem2 && aggregate1 == aggregate2 && release1 == release2
  {
    var v1 := stem1 + "-" + aggregate1 + (if release1 then "" else "-dev");
    var v2 := stem2 + "-" + aggregate2 + (if release2 then "" else "-dev");
    assert v1[|v1| - 1] == (if release1 then aggregate1[63] else 'v');
    assert v2[|v2| - 1] == (if release2 then aggregate2[63] else 'v');
    assert release1 == release2 by {
      assert aggregate1[63] in "0123456789abcdef" && aggregate2[63] in "0123456789abcdef";
    }
    var n := |stem1|;
    assert |stem2| == n;
    assert stem1 == v1[..n] && stem2 == v2[..n];
    assert aggregate1 == v1[n + 1..n + 65] && aggregate2 == v2[n + 1..n + 65];
  }

  /** A release build and a development build of the same tree differ only by the trailing `-dev`. */
  lemma DevIsReleasePlusSuffix(base: string, aggregate: string)
    ensures VersionString(base, aggregate, false) == VersionString(base, aggregate, true) + "-dev"
  {
  }

  /** With a real hex digest, the version ends in `-dev` exactly when the build is not a release. */
  lemma DevSuffixIffNotRelease(base: string, aggregate: string, release: bool)
    requires IsHexDigest(aggregate)
    ensures EndsWith(VersionString(base, aggregate, release), "-dev") <==> !release
  {
    var v := VersionString(base, aggregate, release);
    var stem := Strip(base) + "-" + aggregate;
    if release {
      assert v == stem;
      assert v[|v| - 4] == aggregate[60] != '-';
    } else {
      assert v == stem + "-dev";
      assert v[|v| - 4..] == "-dev";
    }
  }
}
