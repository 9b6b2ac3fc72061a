/** The dataset builder: a walk over `<root>/<label>/<file>` that keeps, per
    label directory, the first images (in listing order) whose extension is
    an image extension and whose metrics could be computed, up to a
    per-class cap, and numbers the kept rows 0, 1, 2, ... in walk order.

    The file system is an input here: the root's directory test is a
    boolean, the root listing is a sequence of entries, each entry says
    whether it is a directory and lists its files in the platform's order,
    and each file carries what the metric extractor returns for it
    (`None` when the image could not be opened or decoded). */
module Dataset {

  import opened Options
  import opened Lexicographic
  import opened Sorting
  import opened Counting

  /** The root the script walks, `os.path.join("seg_train", "seg_train")`,
      and its per-class cap. */
  const TrainDir: string := JoinPath("seg_train", "seg_train")
  const ImagesPerClass: nat := 100

  /** A file name with the extractor's (brightness, contrast), if any. */
  datatype FileEntry = FileEntry(name: string, metrics: Option<(real, real)>)

  /** One entry of the root listing. */
  datatype DirEntry = DirEntry(name: string, isDir: bool, files: seq<FileEntry>)

  /** A file that passed the extension filter and was measured. */
  datatype Measured = Measured(name: string, brightness: real, contrast: real)

  /** One row of the builder's table, columns in table order. */
  datatype ImageRow = ImageRow(imageId: nat, filepath: string, labelName: string, brightness: real, contrast: real)

  function NameOf(e: DirEntry): string
  {
    e.name
  }

  function LabelOf(r: ImageRow): string
  {
    r.labelName
  }

  /** Two-argument `os.path.join` on POSIX: an absolute second part replaces
      the first; otherwise a separator is inserted unless the first part is
      empty or already ends in one. */
  function JoinPath(a: string, b: string): string
  {
    if |b| > 0 && b[0] == '/' then b
    else if |a| == 0 || a[|a| - 1] == '/' then a + b
    else a + "/" + b
  }

  /** The joined path ends with the file name and, unless the name is
      absolute, starts with the directory; a separator sits between them
      when the directory does not already end in one. */
  lemma JoinPathParts(a: string, b: string)
    ensures var p := JoinPath(a, b);
            |b| <= |p| && p[|p| - |b|..] == b
    ensures var p := JoinPath(a, b);
            (|b| == 0 || b[0] != '/') ==> |a| <= |p| && p[..|a|] == a
    ensures |a| > 0 && a[|a| - 1] != '/' && (|b| == 0 || b[0] != '/') ==>
              JoinPath(a, b)[|a|] == '/' && |JoinPath(a, b)| == |a| + 1 + |b|
  {
  }

  /** `str.lower` on the ASCII letters; other characters are kept. */
  function LowerChar(c: char): char
  {
    if 'A' <= c <= 'Z' then (c as int + 32) as char else c
  }

  function Lower(s: string): (l: string)
    ensures |l| == |s|
    ensures forall i :: 0 <= i < |s| ==> l[i] == LowerChar(s[i])
  {
    seq(|s|, i requires 0 <= i < |s| => LowerChar(s[i]))
  }

  predicate EndsWith(s: string, suffix: string)
  {
    |suffix| <= |s| && s[|s| - |suffix|..] == suffix
  }

  /** The builder's extension filter: the lower-cased name ends in `.jpg`,
      `.jpeg` or `.png`. */
  predicate IsImageFile(name: string)
  {
    var l := Lower(name);
    EndsWith(l, ".jpg") || EndsWith(l, ".jpeg") || EndsWith(l, ".png")
  }

  /** The filter looks only at the last four or five characters: the name
      is an image file name exactly when its last four characters lower to
      `.jpg` or `.png`, or its last five lower to `.jpeg`. */
  lemma ImageFileBySuffix(name: string)
    ensures IsImageFile(name) <==>
              (|name| >= 4 && Lower(name[|name| - 4..]) in {".jpg", ".png"})
              || (|name| >= 5 && Lower(name[|name| - 5..]) == ".jpeg")
  {
    var l := Lower(name);
    if |name| >= 4 {
      assert l[|l| - 4..] == Lower(name[|name| - 4..]);
    }
    if |name| >= 5 {
      assert l[|l| - 5..] == Lower(name[|name| - 5..]);
    }
  }

  /** Any stem followed by any capitalisation of an image extension passes
      the filter. */
  lemma ImageExtensionIgnoresCase(stem: string, ext: string)
    ensures Lower(ext) in [".jpg", ".jpeg", ".png"] ==> IsImageFile(stem + ext)
  {
    var l := Lower(stem + ext);
    assert l[|stem|..] == Lower(ext);
    if Lower(ext) in [".jpg", ".jpeg", ".png"] {
      assert l[|l| - |ext|..] == Lower(ext);
    }
  }

  /** The files of one directory that pass the extension filter and whose
      metrics were computed, in listing order. */
  function Accepted(files: seq<FileEntry>): (ms: seq<Measured>)
    ensures |ms| <= |files|
  {
    if |files| == 0 then []
    else
      var prev := Accepted(files[..|files| - 1]);
      var f := files[|files| - 1];
      if IsImageFile(f.name) && f.metrics.Some? then
        prev + [Measured(f.name, f.metrics.value.0, f.metrics.value.1)]
      else prev
  }

  /** The first `cap` accepted files: the ones that become rows. */
  function Admitted(files: seq<FileEntry>, cap: nat): (ms: seq<Measured>)
    ensures |ms| <= cap
  {
    var acc := Accepted(files);
    if |acc| <= cap then acc else acc[..cap]
  }

  /** Rows for measured files of the directory `classDir`, numbered from
      `firstId`. */
  function RowsOf(classDir: string, labelName: string, ms: seq<Measured>, firstId: nat): (rows: seq<ImageRow>)
    ensures |rows| == |ms|
    ensures forall i :: 0 <= i < |rows| ==> rows[i].imageId == firstId + i && rows[i].labelName == labelName
  {
    seq(|ms|, i requires 0 <= i < |ms| =>
      ImageRow(firstId + i, JoinPath(classDir, ms[i].name), labelName, ms[i].brightness, ms[i].contrast))
  }

  /** Rows one root entry contributes; none when it is not a directory. */
  function ClassRows(root: string, e: DirEntry, cap: nat, firstId: nat): (rows: seq<ImageRow>)
    ensures |rows| <= cap
    ensures forall i :: 0 <= i < |rows| ==> rows[i].imageId == firstId + i && rows[i].labelName == e.name
  {
    if e.isDir then RowsOf(JoinPath(root, e.name), e.name, Admitted(e.files, cap), firstId) else []
  }

  /** Rows of the entries `es`, visited in the given order, numbered from 0. */
  function AllRows(root: string, es: seq<DirEntry>, cap: nat): seq<ImageRow>
  {
    if |es| == 0 then []
    else
      var prev := AllRows(root, es[..|es| - 1], cap);
      prev + ClassRows(root, es[|es| - 1], cap, |prev|)
  }

  /** The reference table: the root listing sorted by name, then walked. */
  function DatasetRows(root: string, listing: seq<DirEntry>, cap: nat): seq<ImageRow>
  {
    AllRows(root, SortBy(listing, NameOf), cap)
  }

  /** The rows that carry label `label`, in order. */
  function RowsLabelled(rows: seq<ImageRow>, labelName: string): (g: seq<ImageRow>)
    ensures forall r :: r in g ==> r in rows && r.labelName == labelName
    ensures |g| <= |rows|
  {
    if |rows| == 0 then []
    else
      var prev := RowsLabelled(rows[..|rows| - 1], labelName);
      var last := rows[|rows| - 1];
      if last.labelName == labelName then prev + [last] else prev
  }

  /** Entries with pairwise different names, as in any real directory. */
  predicate DistinctNames(es: seq<DirEntry>)
  {
    forall i, j :: 0 <= i < j < |es| ==> es[i].name != es[j].name
  }

  /** Row `r` was produced from directory entry `e`: `r` carries `e`'s name as
      its label and the metrics of one of `e`'s image files, whose path under
      `root` is `r`'s file path. */
  predicate DerivedFrom(root: string, e: DirEntry, r: ImageRow)
  {
    && e.isDir
    && r.labelName == e.name
    && exists f :: f in e.files
                   && IsImageFile(f.name)
                   && f.metrics == Some((r.brightness, r.contrast))
                   && r.filepath == JoinPath(JoinPath(root, e.name), f.name)
  }

  // ---------------------------------------------------------------------
  // The builder loop

  /** The builder: returns no table when the root is not a directory;
      otherwise the rows of the sorted walk, with dense IDs. */
  method BuildDataset(rootIsDir: bool, root: string, listing: seq<DirEntry>, cap: nat)
    returns (table: Option<seq<ImageRow>>)
    ensures table.None? <==> !rootIsDir
    ensures table.Some? ==> table.value == DatasetRows(root, listing, cap)
    ensures table.Some? ==> forall i :: 0 <= i < |table.value| ==> table.value[i].imageId == i
  {
    if !rootIsDir {
      return None;
    }
    var rows: seq<ImageRow> := [];
    var imageId: nat := 0;
    var labels := SortBy(listing, NameOf);
    for li := 0 to |labels|
      invariant rows == AllRows(root, labels[..li], cap)
      invariant imageId == |rows|
    {
      AllRowsStep(root, labels, li, cap);
      var entry := labels[li];
      var classDir := JoinPath(root, entry.name);
      if !entry.isDir {
        continue;
      }
      var classRows := ScanClass(classDir, entry.name, entry.files, cap, imageId);
      assert classRows == ClassRows(root, entry, cap, |rows|);
      rows := rows + classRows;
      imageId := imageId + |classRows|;
    }
    assert labels[..|labels|] == labels;
    IdsAreDense(root, labels, cap);
    return Some(rows);
  }

  /** The script as configured: the walk of `TrainDir` with the cap
      `ImagesPerClass`, which yields at most that many rows per listed entry. */
  method BuildTrainTable(rootIsDir: bool, listing: seq<DirEntry>) returns (table: Option<seq<ImageRow>>)
    ensures table.None? <==> !rootIsDir
    ensures table.Some? ==> table.value == DatasetRows(TrainDir, listing, ImagesPerClass)
    ensures table.Some? ==> |table.value| <= ImagesPerClass * |listing|
  {
    table := BuildDataset(rootIsDir, TrainDir, listing, ImagesPerClass);
    AllRowsLength(TrainDir, SortBy(listing, NameOf), ImagesPerClass);
  }

  /** No entry contributes more than `cap` rows. */
  lemma {:induction false} AllRowsLength(root: string, es: seq<DirEntry>, cap: nat)
    ensures |AllRows(root, es, cap)| <= cap * |es|
  {
    if |es| > 0 {
      AllRowsLength(root, es[..|es| - 1], cap);
      assert cap * |es| == cap * (|es| - 1) + cap;
    }
  }

  /** The inner loop over one label directory's listing: stop once `cap` rows
      were produced, skip non-image names and failed extractions, and give
      each new row the next ID. */
  method ScanClass(classDir: string, labelName: string, files: seq<FileEntry>, cap: nat, firstId: nat)
    returns (rows: seq<ImageRow>)
    ensures rows == RowsOf(classDir, labelName, Admitted(files, cap), firstId)
    ensures |rows| <= cap
  {
    rows := [];
    var imageId := firstId;
    var count: nat := 0;
    for fi := 0 to |files|
      invariant count == |Admitted(files[..fi], cap)|
      invariant rows == RowsOf(classDir, labelName, Admitted(files[..fi], cap), firstId)
      invariant imageId == firstId + count
    {
      if count >= cap {
        AdmittedSaturated(files, fi, cap);
        break;
      }
      AdmittedStep(files, fi, cap);
      var file := files[fi];
      if !IsImageFile(file.name) {
        continue;
      }
      if file.metrics.None? {
        continue;
      }
      var (brightness, contrast) := file.metrics.value;
      RowsOfSnoc(classDir, labelName, Admitted(files[..fi], cap), Measured(file.name, brightness, contrast), firstId);
      rows := rows + [ImageRow(imageId, JoinPath(classDir, file.name), labelName, brightness, contrast)];
      imageId := imageId + 1;
      count := count + 1;
    }
    assert files[..|files|] == files;
  }

  lemma AllRowsStep(root: string, es: seq<DirEntry>, i: nat, cap: nat)
    requires i < |es|
    ensures AllRows(root, es[..i + 1], cap)
            == AllRows(root, es[..i], cap) + ClassRows(root, es[i], cap, |AllRows(root, es[..i], cap)|)
  {
    assert es[..i + 1][..i] == es[..i];
  }

  lemma {:induction false} AcceptedAppend(a: seq<FileEntry>, b: seq<FileEntry>)
    ensures Accepted(a + b) == Accepted(a) + Accepted(b)
  {
    if |b| == 0 {
      assert a + b == a;
    } else {
      assert (a + b)[..|a + b| - 1] == a + b[..|b| - 1];
      AcceptedAppend(a, b[..|b| - 1]);
    }
  }

  /** One more file under the cap extends the admitted files by that file
      exactly when it is an image file with metrics. */
  lemma AdmittedStep(files: seq<FileEntry>, fi: nat, cap: nat)
    requires fi < |files|
    requires |Admitted(files[..fi], cap)| < cap
    ensures var f := files[fi];
            Admitted(files[..fi + 1], cap)
            == Admitted(files[..fi], cap)
               + (if IsImageFile(f.name) && f.metrics.Some?
                  then [Measured(f.name, f.metrics.value.0, f.metrics.value.1)] else [])
  {
    assert files[..fi + 1][..fi] == files[..fi];
  }

  /** Once the cap is reached, the rest of the listing adds nothing. */
  lemma AdmittedSaturated(files: seq<FileEntry>, fi: nat, cap: nat)
    requires fi <= |files|
    requires |Admitted(files[..fi], cap)| >= cap
    ensures Admitted(files, cap) == Admitted(files[..fi], cap)
  {
    assert files == files[..fi] + files[fi..];
    AcceptedAppend(files[..fi], files[fi..]);
  }

  lemma RowsOfSnoc(classDir: string, labelName: string, ms: seq<Measured>, m: Measured, firstId: nat)
    ensures RowsOf(classDir, labelName, ms + [m], firstId)
            == RowsOf(classDir, labelName, ms, firstId)
               + [ImageRow(firstId + |ms|, JoinPath(classDir, m.name), labelName, m.brightness, m.contrast)]
  {
  }

  // ---------------------------------------------------------------------
  // Properties of the table

  /** `Image_ID`s are 0, 1, ..., n-1 in row order. */
  lemma {:induction false} IdsAreDense(root: string, es: seq<DirEntry>, cap: nat)
    ensures forall i :: 0 <= i < |AllRows(root, es, cap)| ==> AllRows(root, es, cap)[i].imageId == i
  {
    if |es| > 0 {
      var prev := AllRows(root, es[..|es| - 1], cap);
      var cls := ClassRows(root, es[|es| - 1], cap, |prev|);
      IdsAreDense(root, es[..|es| - 1], cap);
      var rows := prev + cls;
      assert AllRows(root, es, cap) == rows;
      forall i | 0 <= i < |rows|
        ensures rows[i].imageId == i
      {
        if i >= |prev| {
          assert rows[i] == cls[i - |prev|];
        } else {
          assert rows[i] == prev[i];
        }
      }
    }
  }

  /** The table's `Image_ID`s are 0, 1, ..., n-1 in row order. */
  lemma DatasetIdsDense(root: string, listing: seq<DirEntry>, cap: nat)
    ensures forall i :: 0 <= i < |DatasetRows(root, listing, cap)| ==> DatasetRows(root, listing, cap)[i].imageId == i
  {
    IdsAreDense(root, SortBy(listing, NameOf), cap);
    assert DatasetRows(root, listing, cap) == AllRows(root, SortBy(listing, NameOf), cap);
  }

  /** Every accepted file comes from the listing, passes the extension
      filter and was measured. */
  lemma {:induction false} AcceptedFrom(files: seq<FileEntry>)
    ensures forall m :: m in Accepted(files) ==>
              exists f :: f in files && f.name == m.name && IsImageFile(f.name)
                          && f.metrics == Some((m.brightness, m.contrast))
  {
    if |files| > 0 {
      var p := files[..|files| - 1];
      AcceptedFrom(p);
      forall m | m in Accepted(files)
        ensures exists f :: f in files && f.name == m.name && IsImageFile(f.name)
                            && f.metrics == Some((m.brightness, m.contrast))
      {
        if m in Accepted(p) {
          var f :| f in p && f.name == m.name && IsImageFile(f.name)
                   && f.metrics == Some((m.brightness, m.contrast));
          assert f in files;
        } else {
          assert files[|files| - 1] in files;
        }
      }
    }
  }

  lemma ClassRowsFrom(root: string, e: DirEntry, cap: nat, firstId: nat)
    ensures forall r :: r in ClassRows(root, e, cap, firstId) ==> DerivedFrom(root, e, r)
  {
    if e.isDir {
      var ms := Admitted(e.files, cap);
      AcceptedFrom(e.files);
      forall r | r in ClassRows(root, e, cap, firstId)
        ensures DerivedFrom(root, e, r)
      {
        var i :| 0 <= i < |ms| && ClassRows(root, e, cap, firstId)[i] == r;
        var m := ms[i];
        assert m in Accepted(e.files);
        var f :| f in e.files && f.name == m.name && IsImageFile(f.name)
                 && f.metrics == Some((m.brightness, m.contrast));
        assert r.filepath == JoinPath(JoinPath(root, e.name), f.name);
      }
    }
  }

  lemma {:induction false} AllRowsFrom(root: string, es: seq<DirEntry>, cap: nat)
    ensures forall r :: r in AllRows(root, es, cap) ==> exists e :: e in es && DerivedFrom(root, e, r)
  {
    if |es| > 0 {
      var p := es[..|es| - 1];
      AllRowsFrom(root, p, cap);
      var prev := AllRows(root, p, cap);
      ClassRowsFrom(root, es[|es| - 1], cap, |prev|);
      forall r | r in AllRows(root, es, cap)
        ensures exists e :: e in es && DerivedFrom(root, e, r)
      {
        if r in prev {
          var e :| e in p && DerivedFrom(root, e, r);
          assert e in es;
        } else {
          assert es[|es| - 1] in es;
        }
      }
    }
  }

  /** Each row comes from a directory of the listing and one of its image
      files with computed metrics: the label is the directory's name and
      the file path joins the class directory and the file name. */
  lemma RowsComeFromListing(root: string, listing: seq<DirEntry>, cap: nat)
    ensures forall r :: r in DatasetRows(root, listing, cap) ==>
              exists e :: e in listing && DerivedFrom(root, e, r)
  {
    var sorted := SortBy(listing, NameOf);
    AllRowsFrom(root, sorted, cap);
    forall r | r in DatasetRows(root, listing, cap)
      ensures exists e :: e in listing && DerivedFrom(root, e, r)
    {
      var e :| e in sorted && DerivedFrom(root, e, r);
      assert e in multiset(sorted);
    }
  }

  /** Each row's label is the name of a directory among `es`. */
  lemma {:induction false} AllRowsLabels(root: string, es: seq<DirEntry>, cap: nat)
    ensures forall r :: r in AllRows(root, es, cap) ==>
              exists k :: 0 <= k < |es| && es[k].isDir && r.labelName == es[k].name
  {
    if |es| > 0 {
      var p := es[..|es| - 1];
      var prev := AllRows(root, p, cap);
      var cls := ClassRows(root, es[|es| - 1], cap, |prev|);
      AllRowsLabels(root, p, cap);
      forall r: ImageRow | r in prev + cls
        ensures exists k :: 0 <= k < |es| && es[k].isDir && r.labelName == es[k].name
      {
        if r in prev {
          var k :| 0 <= k < |p| && p[k].isDir && r.labelName == p[k].name;
          assert es[k] == p[k];
        } else {
          var i :| 0 <= i < |cls| && cls[i] == r;
          assert es[|es| - 1].isDir;
        }
      }
    }
  }

  lemma {:induction false} AllRowsSortedByLabel(root: string, es: seq<DirEntry>, cap: nat)
    requires SortedBy(es, NameOf)
    ensures SortedBy(AllRows(root, es, cap), LabelOf)
  {
    if |es| > 0 {
      var p := es[..|es| - 1];
      var last := es[|es| - 1];
      AllRowsSortedByLabel(root, p, cap);
      AllRowsLabels(root, p, cap);
      var prev := AllRows(root, p, cap);
      var cls := ClassRows(root, last, cap, |prev|);
      var rows := prev + cls;
      assert AllRows(root, es, cap) == rows;
      forall i, j | 0 <= i < j < |rows|
        ensures LessEq(LabelOf(rows[i]), LabelOf(rows[j]))
      {
        if j >= |prev| {
          assert rows[j] == cls[j - |prev|];
          if i < |prev| {
            assert rows[i] in prev;
            var k :| 0 <= k < |p| && p[k].isDir && rows[i].labelName == p[k].name;
            assert es[k] == p[k];
          } else {
            assert rows[i] == cls[i - |prev|];
          }
        } else {
          assert rows[i] == prev[i] && rows[j] == prev[j];
        }
      }
    }
  }

  /** Labels never decrease along the table: the walk visits label
      directories in sorted order. */
  lemma LabelsAscend(root: string, listing: seq<DirEntry>, cap: nat)
    ensures SortedBy(DatasetRows(root, listing, cap), LabelOf)
  {
    AllRowsSortedByLabel(root, SortBy(listing, NameOf), cap);
  }

  lemma {:induction false} RowsLabelledAppend(a: seq<ImageRow>, b: seq<ImageRow>, labelName: string)
    ensures RowsLabelled(a + b, labelName) == RowsLabelled(a, labelName) + RowsLabelled(b, labelName)
  {
    if |b| == 0 {
      assert a + b == a;
    } else {
      assert (a + b)[..|a + b| - 1] == a + b[..|b| - 1];
      RowsLabelledAppend(a, b[..|b| - 1], labelName);
    }
  }

  lemma {:induction false} RowsLabelledAll(rows: seq<ImageRow>, labelName: string)
    requires forall r :: r in rows ==> r.labelName == labelName
    ensures RowsLabelled(rows, labelName) == rows
  {
    if |rows| > 0 {
      RowsLabelledAll(rows[..|rows| - 1], labelName);
      assert rows[|rows| - 1] in rows;
      assert rows == rows[..|rows| - 1] + [rows[|rows| - 1]];
    }
  }

  lemma {:induction false} RowsLabelledNone(rows: seq<ImageRow>, labelName: string)
    requires forall r :: r in rows ==> r.labelName != labelName
    ensures RowsLabelled(rows, labelName) == []
  {
    if |rows| > 0 {
      RowsLabelledNone(rows[..|rows| - 1], labelName);
      assert rows[|rows| - 1] in rows;
    }
  }

  /** A directory's rows carry its name as label and nothing else does. */
  lemma ClassRowsLabelled(root: string, e: DirEntry, cap: nat, firstId: nat, labelName: string)
    ensures RowsLabelled(ClassRows(root, e, cap, firstId), labelName)
            == if e.name == labelName then ClassRows(root, e, cap, firstId) else []
  {
    var cls := ClassRows(root, e, cap, firstId);
    if e.name == labelName {
      forall r | r in cls
        ensures r.labelName == labelName
      {
        var i :| 0 <= i < |cls| && cls[i] == r;
      }
      RowsLabelledAll(cls, labelName);
    } else {
      forall r | r in cls
        ensures r.labelName != labelName
      {
        var i :| 0 <= i < |cls| && cls[i] == r;
      }
      RowsLabelledNone(cls, labelName);
    }
  }

  /** Entries none of which is named `labelName` give no row with that label. */
  lemma NoRowsForAbsentName(root: string, es: seq<DirEntry>, cap: nat, labelName: string)
    requires forall k :: 0 <= k < |es| ==> es[k].name != labelName
    ensures RowsLabelled(AllRows(root, es, cap), labelName) == []
  {
    AllRowsLabels(root, es, cap);
    forall r | r in AllRows(root, es, cap)
      ensures r.labelName != labelName
    {
      var k :| 0 <= k < |es| && es[k].isDir && r.labelName == es[k].name;
    }
    RowsLabelledNone(AllRows(root, es, cap), labelName);
  }

  lemma {:induction false} GroupOfEntry(root: string, es: seq<DirEntry>, cap: nat, e: DirEntry)
    requires DistinctNames(es)
    requires e in es
    ensures exists k :: RowsLabelled(AllRows(root, es, cap), e.name) == ClassRows(root, e, cap, k)
  {
    var p := es[..|es| - 1];
    var last := es[|es| - 1];
    var prev := AllRows(root, p, cap);
    var cls := ClassRows(root, last, cap, |prev|);
    assert AllRows(root, es, cap) == prev + cls;
    RowsLabelledAppend(prev, cls, e.name);
    ClassRowsLabelled(root, last, cap, |prev|, e.name);
    if last == e {
      forall k | 0 <= k < |p|
        ensures p[k].name != e.name
      {
        assert p[k] == es[k];
      }
      NoRowsForAbsentName(root, p, cap, e.name);
      assert RowsLabelled(AllRows(root, es, cap), e.name) == ClassRows(root, e, cap, |prev|);
    } else {
      var n :| 0 <= n < |es| && es[n] == e;
      assert n < |es| - 1;
      assert p[n] == e;
      assert DistinctNames(p) by {
        forall a, b | 0 <= a < b < |p|
          ensures p[a].name != p[b].name
        {
          assert p[a] == es[a] && p[b] == es[b];
        }
      }
      GroupOfEntry(root, p, cap, e);
      assert last.name != e.name;
    }
  }

  /** Permuting entries keeps their names distinct. */
  lemma DistinctNamesPermutation(a: seq<DirEntry>, b: seq<DirEntry>)
    requires multiset(a) == multiset(b)
    requires DistinctNames(a)
    ensures DistinctNames(b)
  {
    forall i, j | 0 <= i < j < |b|
      ensures b[i].name != b[j].name
    {
      MultiplicityAtMostOne(a, b[i]);
      RepeatedMultiplicity(b, i, j);
      assert b[i] != b[j];
      assert b[i] in multiset(a) && b[j] in multiset(a);
      var p :| 0 <= p < |a| && a[p] == b[i];
      var q :| 0 <= q < |a| && a[q] == b[j];
      assert p != q;
    }
  }

  /** With distinct directory names, the rows labelled with a directory's
      name are exactly the rows that directory contributes: its first `cap`
      image files with metrics, in listing order, under consecutive IDs. */
  lemma LabelGroupIsScanPrefix(root: string, listing: seq<DirEntry>, cap: nat, e: DirEntry)
    requires DistinctNames(listing)
    requires e in listing
    ensures exists k :: RowsLabelled(DatasetRows(root, listing, cap), e.name) == ClassRows(root, e, cap, k)
  {
    var sorted := SortBy(listing, NameOf);
    DistinctNamesPermutation(listing, sorted);
    assert e in multiset(listing);
    GroupOfEntry(root, sorted, cap, e);
  }

  /** With distinct directory names, no label has more than `cap` rows. */
  lemma PerLabelCap(root: string, listing: seq<DirEntry>, cap: nat, labelName: string)
    requires DistinctNames(listing)
    ensures |RowsLabelled(DatasetRows(root, listing, cap), labelName)| <= cap
  {
    var rows := DatasetRows(root, listing, cap);
    RowsComeFromListing(root, listing, cap);
    if e :| e in listing && e.name == labelName {
      LabelGroupIsScanPrefix(root, listing, cap, e);
    } else {
      forall r | r in rows
        ensures r.labelName != labelName
      {
        var d :| d in listing && DerivedFrom(root, d, r);
      }
      RowsLabelledNone(rows, labelName);
    }
  }

  /** A file that fails the extension filter or whose extraction failed is
      as good as absent: it neither becomes a row nor uses up the cap. */
  lemma UnusableFileIsSkipped(root: string, e: DirEntry, cap: nat, firstId: nat, i: nat)
    requires i < |e.files|
    requires !IsImageFile(e.files[i].name) || e.files[i].metrics.None?
    ensures ClassRows(root, e.(files := e.files[..i] + e.files[i + 1..]), cap, firstId)
            == ClassRows(root, e, cap, firstId)
  {
    var fs := e.files;
    assert fs == fs[..i] + [fs[i]] + fs[i + 1..];
    AcceptedAppend(fs[..i] + [fs[i]], fs[i + 1..]);
    AcceptedAppend(fs[..i], fs[i + 1..]);
    assert Accepted(fs[..i] + [fs[i]]) == Accepted(fs[..i]) by {
      assert (fs[..i] + [fs[i]])[..i] == fs[..i];
    }
  }

  lemma {:induction false} AcceptedAllUsable(files: seq<FileEntry>)
    requires forall f :: f in files ==> IsImageFile(f.name) && f.metrics.Some?
    ensures |Accepted(files)| == |files|
  {
    if |files| > 0 {
      AcceptedAllUsable(files[..|files| - 1]);
      assert files[|files| - 1] in files;
    }
  }

  /** A directory whose files are all measurable images contributes
      `min(cap, number of files)` rows. */
  lemma UsableDirectoryRowCount(root: string, e: DirEntry, cap: nat, firstId: nat)
    requires e.isDir
    requires forall f :: f in e.files ==> IsImageFile(f.name) && f.metrics.Some?
    ensures |ClassRows(root, e, cap, firstId)| == if |e.files| <= cap then |e.files| else cap
  {
    AcceptedAllUsable(e.files);
  }
}
