/**
  `sources2db`: loading a sources list into the package and version tables.
  Each line is already split on whitespace into its columns (package,
  version, area, anything else). The database is abstracted: the inserted
  package rows are the set of names, the inserted version rows a sequence,
  and the ids the database hands out a function from name to id.
 */
module SourcesIngest {

  import opened Wrappers

  /** An entry of the `versions` list: `(cols[0], cols[1], cols[2])`. */
  datatype VersionTriple = VersionTriple(package: string, vnumber: string, area: string)

  /** A row inserted into the version table. */
  datatype VersionRow = VersionRow(vnumber: string, packageId: int, area: string)

  /** Everything the ingestion builds: package rows, the version list, the id map, version rows. */
  datatype Ingested = Ingested(
    packages: set<string>,
    versions: seq<VersionTriple>,
    packids: map<string, int>,
    versionRows: seq<VersionRow>)

  /** Indexing a missing column aborts the whole ingestion. */
  datatype IngestError = IndexError

  /** Every line has the package, version and area columns. */
  ghost predicate AllComplete(lines: seq<seq<string>>) {
    forall k :: 0 <= k < |lines| ==> |lines[k]| >= 3
  }

  /** The package names of the lines: their first columns. */
  ghost function PackageNames(lines: seq<seq<string>>): set<string>
    requires forall k :: 0 <= k < |lines| ==> |lines[k]| >= 1
  {
    set k | 0 <= k < |lines| :: lines[k][0]
  }

  /** No two lines name the same package. */
  ghost predicate DistinctNames(lines: seq<seq<string>>)
    requires forall k :: 0 <= k < |lines| ==> |lines[k]| >= 1
  {
    forall i, j :: 0 <= i < j < |lines| ==> lines[i][0] != lines[j][0]
  }

  /**
    What loading `lines` produces: an IndexError if any line lacks a column;
    otherwise one package row per distinct first column, one triple and one
    version row per line in file order, and ids looked up by package name.
   */
  ghost function Ingest(lines: seq<seq<string>>, idOf: string -> int): Result<Ingested, IngestError>
  {
    if !AllComplete(lines) then Failure(IndexError)
    else
      var packages := PackageNames(lines);
      Success(Ingested(
        packages,
        seq(|lines|, k requires 0 <= k < |lines| => VersionTriple(lines[k][0], lines[k][1], lines[k][2])),
        map p | p in packages :: idOf(p),
        seq(|lines|, k requires 0 <= k < |lines| => VersionRow(lines[k][1], idOf(lines[k][0]), lines[k][2]))))
  }

  /** Reading one more line adds its first column to the package names. */
  lemma PackageNamesSnoc(lines: seq<seq<string>>, i: nat)
    requires i < |lines|
    requires forall k :: 0 <= k <= i ==> |lines[k]| >= 1
    ensures PackageNames(lines[..i + 1]) == PackageNames(lines[..i]) + {lines[i][0]}
  {
    var prefix := lines[..i + 1];
    assert forall k :: 0 <= k < i ==> prefix[k] == lines[..i][k];
    assert prefix[i] == lines[i];
  }

  /** One short line is enough to abort. */
  lemma ShortLineAborts(lines: seq<seq<string>>, idOf: string -> int, i: nat)
    requires i < |lines| && |lines[i]| < 3
    ensures Ingest(lines, idOf) == Failure(IndexError)
  {
  }

  /** The results built pointwise are the ones `Ingest` describes. */
  lemma IngestPointwise(lines: seq<seq<string>>, idOf: string -> int, versions: seq<VersionTriple>,
                        packids: map<string, int>, versionRows: seq<VersionRow>)
    requires AllComplete(lines)
    requires |versions| == |lines| && |versionRows| == |lines|
    requires forall k :: 0 <= k < |lines| ==> versions[k] == VersionTriple(lines[k][0], lines[k][1], lines[k][2])
    requires forall k :: 0 <= k < |lines| ==> versionRows[k] == VersionRow(lines[k][1], idOf(lines[k][0]), lines[k][2])
    requires packids.Keys == PackageNames(lines)
    requires forall p :: p in packids ==> packids[p] == idOf(p)
    ensures Ingest(lines, idOf) == Success(Ingested(PackageNames(lines), versions, packids, versionRows))
  {
    var packages := PackageNames(lines);
    assert packids == map p | p in packages :: idOf(p);
    assert versions == seq(|lines|, k requires 0 <= k < |lines| => VersionTriple(lines[k][0], lines[k][1], lines[k][2]));
    assert versionRows == seq(|lines|, k requires 0 <= k < |lines| => VersionRow(lines[k][1], idOf(lines[k][0]), lines[k][2]));
  }

  /**
    The `packids` dictionary: one entry per package row read back from the
    database, in whatever order the rows come, mapping the name to its id.
   */
  method BuildPackids(packages: set<string>, idOf: string -> int) returns (packids: map<string, int>)
    ensures packids.Keys == packages
    ensures forall p :: p in packids ==> packids[p] == idOf(p)
  {
    packids := map[];
    var rest := packages;
    while rest != {}
      invariant rest <= packages
      invariant packids.Keys == packages - rest
      invariant forall p :: p in packids ==> packids[p] == idOf(p)
      decreases |rest|
    {
      var p :| p in rest;
      packids := packids[p := idOf(p)];
      rest := rest - {p};
    }
  }

  /** `sources2db`, with the reading of the file and the database calls abstracted. */
  method SourcesToDb(lines: seq<seq<string>>, idOf: string -> int) returns (r: Result<Ingested, IngestError>)
    ensures r == Ingest(lines, idOf)
  {
    // package names and one triple per line
    var packages: set<string> := {};
    var versions: seq<VersionTriple> := [];
    var i := 0;
    while i < |lines|
      invariant 0 <= i <= |lines|
      invariant forall k :: 0 <= k < i ==> |lines[k]| >= 3
      invariant packages == PackageNames(lines[..i])
      invariant |versions| == i
      invariant forall k :: 0 <= k < i ==> versions[k] == VersionTriple(lines[k][0], lines[k][1], lines[k][2])
    {
      var cols := lines[i];
      if |cols| < 1 {
        ShortLineAborts(lines, idOf, i);
        return Failure(IndexError);
      }
      PackageNamesSnoc(lines, i);
      packages := packages + {cols[0]};
      if |cols| < 3 {
        ShortLineAborts(lines, idOf, i);
        return Failure(IndexError);
      }
      versions := versions + [VersionTriple(cols[0], cols[1], cols[2])];
      i := i + 1;
    }
    assert lines[..i] == lines;

    var packids := BuildPackids(packages, idOf);

    // finally one version row per triple, pointing at its package's id
    assert forall k :: 0 <= k < |versions| ==> versions[k].package in packids by {
      forall k | 0 <= k < |versions| ensures versions[k].package in packids {
        assert versions[k].package == lines[k][0];
      }
    }
    var versionRows := seq(|versions|, k requires 0 <= k < |versions| =>
      VersionRow(versions[k].vnumber, packids[versions[k].package], versions[k].area));
    IngestPointwise(lines, idOf, versions, packids, versionRows);
    r := Success(Ingested(packages, versions, packids, versionRows));
  }

  /**
    Duplicate package names collapse: there are at most as many package rows
    as lines, and exactly as many only when no name repeats.
   */
  lemma {:induction false} DuplicateNamesCollapse(lines: seq<seq<string>>)
    requires forall k :: 0 <= k < |lines| ==> |lines[k]| >= 1
    ensures |PackageNames(lines)| <= |lines|
    ensures |PackageNames(lines)| == |lines| <==> DistinctNames(lines)
    decreases |lines|
  {
    if lines != [] {
      var n := |lines|;
      var init := lines[..n - 1];
      DuplicateNamesCollapse(init);
      PackageNamesSnoc(lines, n - 1);
      assert lines[..n] == lines;
      DistinctSnoc(lines);
    }
  }

  /** The lines have distinct names when the earlier ones do and the last name is new. */
  lemma DistinctSnoc(lines: seq<seq<string>>)
    requires |lines| > 0
    requires forall k :: 0 <= k < |lines| ==> |lines[k]| >= 1
    ensures var init := lines[..|lines| - 1];
      DistinctNames(lines) <==> DistinctNames(init) && lines[|lines| - 1][0] !in PackageNames(init)
  {
    var n := |lines|;
    var init := lines[..n - 1];
    assert forall k :: 0 <= k < n - 1 ==> init[k] == lines[k];
    if lines[n - 1][0] in PackageNames(init) {
      var k :| 0 <= k < n - 1 && init[k][0] == lines[n - 1][0];
      assert lines[k][0] == lines[n - 1][0];
    }
  }

  /** The first three columns of a line, or the whole line when it is shorter. */
  function Significant(line: seq<string>): seq<string>
  {
    if |line| >= 3 then line[..3] else line
  }

  /** Columns beyond the third do not change anything that is loaded. */
  lemma ExtraColumnsIgnored(lines: seq<seq<string>>, other: seq<seq<string>>, idOf: string -> int)
    requires |lines| == |other|
    requires forall k :: 0 <= k < |lines| ==> Significant(lines[k]) == Significant(other[k])
    ensures Ingest(lines, idOf) == Ingest(other, idOf)
  {
    forall k | 0 <= k < |lines|
      ensures |lines[k]| >= 3 <==> |other[k]| >= 3
      ensures |lines[k]| >= 3 ==> lines[k][..3] == other[k][..3]
    {
      if |lines[k]| >= 3 || |other[k]| >= 3 {
        assert |Significant(lines[k])| == |Significant(other[k])|;
      }
    }
    if AllComplete(lines) {
      forall k | 0 <= k < |lines|
        ensures lines[k][0] == other[k][0] && lines[k][1] == other[k][1] && lines[k][2] == other[k][2]
      {
        assert lines[k][..3][0] == lines[k][0] && lines[k][..3][1] == lines[k][1] && lines[k][..3][2] == lines[k][2];
      }
      assert PackageNames(lines) == PackageNames(other);
      assert seq(|lines|, k requires 0 <= k < |lines| => VersionTriple(lines[k][0], lines[k][1], lines[k][2]))
          == seq(|other|, k requires 0 <= k < |other| => VersionTriple(other[k][0], other[k][1], other[k][2]));
      assert seq(|lines|, k requires 0 <= k < |lines| => VersionRow(lines[k][1], idOf(lines[k][0]), lines[k][2]))
          == seq(|other|, k requires 0 <= k < |other| => VersionRow(other[k][1], idOf(other[k][0]), other[k][2]));
    }
  }

  /**
    Every version row points at an inserted package: its id is the id of its
    line's package, and with distinct ids no other package row shares it.
   */
  lemma RowsReferenceInsertedPackages(lines: seq<seq<string>>, idOf: string -> int, k: nat, p: string)
    requires Ingest(lines, idOf).Success?
    requires k < |lines|
    requires forall a, b :: idOf(a) == idOf(b) ==> a == b
    ensures var ingested := Ingest(lines, idOf).value;
      && ingested.versions[k].package in ingested.packages
      && ingested.versionRows[k].packageId == ingested.packids[ingested.versions[k].package]
      && (p in ingested.packages && idOf(p) == ingested.versionRows[k].packageId <==> p == lines[k][0])
  {
  }
}
