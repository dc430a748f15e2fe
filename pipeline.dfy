/**
 * The per-file loop of build.py: for each matched file in traversal order,
 * record the digest of its raw text under its source path, then compile or
 * copy it and write the result to its output path. A template the evaluator
 * rejects stops the loop; what was written before stays written.
 */
module Pipeline {
  import opened Wrappers
  import opened PyStr
  import opened Paths

  /** A matched file: its path under `src` and the text read from it. */
  datatype SourceFile = SourceFile(path: string, content: string)

  /** What the template evaluator gives back for a file name and its text. */
  datatype EvalResult = Evaluated(json: string) | EvalError(message: string)

  /** The Jsonnet evaluator, called with the file name (for diagnostics) and the template text. */
  type Evaluator = (string, string) -> EvalResult

  /** SHA-256 of the UTF-8 encoding of a string, as a hex digest. */
  type Hasher = string -> string

  /** One entry of the digest dictionary. */
  datatype Entry = Entry(path: string, digest: string)

  /** One file write under `out`. */
  datatype Write = Write(path: string, text: string)

  /** The keys of an insertion-ordered dictionary, in order. */
  function Keys(d: seq<Entry>): seq<string>
  {
    seq(|d|, i requires 0 <= i < |d| => d[i].path)
  }

  predicate Distinct(ks: seq<string>)
  {
    forall i, j :: 0 <= i < j < |ks| ==> ks[i] != ks[j]
  }

  /** `d.get(key)`. */
  function Get(d: seq<Entry>, key: string): Option<string>
  {
    if d == [] then None
    else if d[0].path == key then Some(d[0].digest)
    else Get(d[1..], key)
  }

  /**
   * `d[key] = value` on a Python dictionary, which remembers insertion order:
   * a key already present keeps its place and gets the new value, a new key
   * goes to the end.
   */
  function Put(d: seq<Entry>, key: string, value: string): (r: seq<Entry>)
    ensures |r| == if key in Keys(d) then |d| else |d| + 1
  {
    if d == [] then [Entry(key, value)]
    else if d[0].path == key then
      assert Keys(d)[0] == key;
      [Entry(key, value)] + d[1..]
    else
      assert Keys(d) == [d[0].path] + Keys(d[1..]);
      [d[0]] + Put(d[1..], key, value)
  }

  /** The keys after `d[key] = value`: unchanged for a key already present, one more at the end otherwise. */
  lemma {:induction false} PutKeys(d: seq<Entry>, key: string, value: string)
    ensures Keys(Put(d, key, value)) == if key in Keys(d) then Keys(d) else Keys(d) + [key]
  {
    if d != [] {
      var r := Put(d, key, value);
      assert Keys(d) == [d[0].path] + Keys(d[1..]);
      if d[0].path == key {
        assert Keys(r) == [key] + Keys(d[1..]);
      } else {
        PutKeys(d[1..], key, value);
        assert Keys(r) == [d[0].path] + Keys(Put(d[1..], key, value));
      }
    }
  }

  /** Assigning to a dictionary with distinct keys leaves its keys distinct. */
  lemma PutKeepsDistinct(d: seq<Entry>, key: string, value: string)
    requires Distinct(Keys(d))
    ensures Distinct(Keys(Put(d, key, value)))
  {
    PutKeys(d, key, value);
  }

  /** A key not yet present is appended with its value, after all the others. */
  lemma {:induction false} PutNewKey(d: seq<Entry>, key: string, value: string)
    requires key !in Keys(d)
    ensures Put(d, key, value) == d + [Entry(key, value)]
  {
    if d != [] {
      assert Keys(d) == [d[0].path] + Keys(d[1..]);
      PutNewKey(d[1..], key, value);
      assert d == [d[0]] + d[1..];
    }
  }

  /** Looking up after `d[key] = value`: the new value under `key`, the old one under any other key. */
  lemma {:induction false} PutGet(d: seq<Entry>, key: string, value: string, k: string)
    ensures Get(Put(d, key, value), k) == if k == key then Some(value) else Get(d, k)
  {
    if d != [] && d[0].path != key {
      PutGet(d[1..], key, value, k);
      assert Put(d, key, value)[1..] == Put(d[1..], key, value);
    } else if d != [] {
      assert Put(d, key, value)[1..] == d[1..];
    }
  }

  /** The digest dictionary the loop builds: `hashes[path] = digest of the raw text`, file after file. */
  function Digests(files: seq<SourceFile>, sha: Hasher): seq<Entry>
  {
    if files == [] then []
    else
      var f := files[|files| - 1];
      Put(Digests(files[..|files| - 1], sha), f.path, sha(f.content))
  }

  /** Where the loop has got to: still going with the writes done so far, or stopped by a rejected template. */
  datatype Progress =
    | Running(writes: seq<Write>)
    | Aborted(path: string, message: string, writes: seq<Write>)

  /** The text written for one file: the evaluator's output for a template, the file itself otherwise. */
  function Output(f: SourceFile, eval: Evaluator): EvalResult
  {
    if IsTemplate(f.path) then eval(f.path, f.content) else Evaluated(f.content)
  }

  /** The writes of the loop run over `files`, one file after the other. */
  function Process(files: seq<SourceFile>, eval: Evaluator): Progress
    decreases |files|
  {
    if files == [] then Running([])
    else
      var f := files[|files| - 1];
      match Process(files[..|files| - 1], eval)
      case Aborted(p, m, w) => Aborted(p, m, w)
      case Running(w) =>
        match Output(f, eval)
        case EvalError(m) => Aborted(f.path, m, w)
        case Evaluated(text) => Running(w + [Write(OutPath(f.path), text)])
  }

  /** Once the loop has stopped, later files change nothing. */
  lemma {:induction false} AbortIsFinal(files: seq<SourceFile>, eval: Evaluator, k: nat)
    requires k <= |files| && Process(files[..k], eval).Aborted?
    ensures Process(files, eval) == Process(files[..k], eval)
  {
    if k < |files| {
      var init := files[..|files| - 1];
      assert init[..k] == files[..k];
      AbortIsFinal(init, eval, k);
    } else {
      assert files[..k] == files;
    }
  }

  /**
   * The loop of build.py over the matched files, in the order the traversal
   * gives them: the writes it makes, or where it stopped, and the digest
   * dictionary it fills on the way.
   */
  method RunPipeline(files: seq<SourceFile>, eval: Evaluator, sha: Hasher) returns (result: Progress, hashes: seq<Entry>)
    ensures result == Process(files, eval)
    ensures result.Running? ==> hashes == Digests(files, sha)
  {
    hashes := [];
    var writes: seq<Write> := [];
    var i := 0;
    while i < |files|
      invariant 0 <= i <= |files|
      invariant Process(files[..i], eval) == Running(writes)
      invariant hashes == Digests(files[..i], sha)
    {
      assert files[..i + 1][..i] == files[..i];
      var file, inputContent := files[i].path, files[i].content;
      var compiling := IsTemplate(file);
      var outFile := ReplaceFirst(file, "src", "out");
      if compiling {
        outFile := DropLast(outFile, 3);
      }
      hashes := Put(hashes, file, sha(inputContent));
      var jsonStr: string;
      if compiling {
        var evaluated := eval(file, inputContent);
        if evaluated.EvalError? {
          result := Aborted(file, evaluated.message, writes);
          AbortIsFinal(files, eval, i + 1);
          return;
        }
        jsonStr := evaluated.json;
      } else {
        jsonStr := inputContent;
      }
      writes := writes + [Write(outFile, jsonStr)];
      i := i + 1;
    }
    assert files[..i] == files;
    result := Running(writes);
  }

  /** The loop runs to the end exactly when the evaluator accepts every template. */
  lemma {:induction false} ProcessCompletes(files: seq<SourceFile>, eval: Evaluator)
    ensures Process(files, eval).Running? <==>
            forall i :: 0 <= i < |files| && IsTemplate(files[i].path) ==> eval(files[i].path, files[i].content).Evaluated?
  {
    if files != [] {
      var init := files[..|files| - 1];
      ProcessCompletes(init, eval);
      forall i | 0 <= i < |init| ensures init[i] == files[i] { }
    }
  }

  /**
   * After a complete run there is one write per file, in order: to the file's
   * output path, with the evaluator's output for a template and the file's own
   * text, unchanged, for anything else.
   */
  lemma {:induction false} ProcessWrites(files: seq<SourceFile>, eval: Evaluator)
    requires Process(files, eval).Running?
    ensures var w := Process(files, eval).writes;
      && |w| == |files|
      && forall i :: 0 <= i < |files| ==>
           && w[i].path == OutPath(files[i].path)
           && (IsTemplate(files[i].path) ==> eval(files[i].path, files[i].content) == Evaluated(w[i].text))
           && (!IsTemplate(files[i].path) ==> w[i].text == files[i].content)
  {
    if files != [] {
      var init := files[..|files| - 1];
      var f := files[|files| - 1];
      ProcessWrites(init, eval);
      var wi := Process(init, eval).writes;
      var w := wi + [Write(OutPath(f.path), Output(f, eval).json)];
      assert Process(files, eval).writes == w;
      forall i | 0 <= i < |files|
        ensures && w[i].path == OutPath(files[i].path)
                && (IsTemplate(files[i].path) ==> eval(files[i].path, files[i].content) == Evaluated(w[i].text))
                && (!IsTemplate(files[i].path) ==> w[i].text == files[i].content)
      {
        if i < |init| {
          assert w[i] == wi[i] && files[i] == init[i];
        }
      }
    }
  }

  /**
   * A run that stops, stops at a template the evaluator rejects; every file
   * before it was processed in full and written, and nothing after it was.
   */
  lemma {:induction false} ProcessAborts(files: seq<SourceFile>, eval: Evaluator) returns (k: nat)
    requires Process(files, eval).Aborted?
    ensures k < |files| && files[k].path == Process(files, eval).path
    ensures IsTemplate(files[k].path)
    ensures eval(files[k].path, files[k].content) == EvalError(Process(files, eval).message)
    ensures Process(files[..k], eval).Running?
    ensures Process(files, eval).writes == Process(files[..k], eval).writes
  {
    var init := files[..|files| - 1];
    if Process(init, eval).Aborted? {
      k := ProcessAborts(init, eval);
      assert init[..k] == files[..k];
    } else {
      k := |files| - 1;
    }
  }

  /**
   * Over distinct paths the digest dictionary has one entry per file, in
   * traversal order, keyed by the source path and holding the digest of the
   * file's raw text (the evaluator plays no part in it).
   */
  lemma {:induction false} DigestsInOrder(files: seq<SourceFile>, sha: Hasher)
    requires forall i, j :: 0 <= i < j < |files| ==> files[i].path != files[j].path
    ensures |Digests(files, sha)| == |files|
    ensures forall i :: 0 <= i < |files| ==> Digests(files, sha)[i] == Entry(files[i].path, sha(files[i].content))
  {
    if files != [] {
      var init := files[..|files| - 1];
      forall i | 0 <= i < |init| ensures init[i] == files[i] { }
      DigestsInOrder(init, sha);
      PutNewPath(Digests(init, sha), files, sha);
    }
  }

  /** The last file of a list of distinct paths goes to the end of the dictionary of the others. */
  lemma PutNewPath(h: seq<Entry>, files: seq<SourceFile>, sha: Hasher)
    requires files != [] && |h| == |files| - 1
    requires forall i :: 0 <= i < |h| ==> h[i] == Entry(files[i].path, sha(files[i].content))
    requires forall i :: 0 <= i < |h| ==> files[i].path != files[|h|].path
    ensures var f := files[|h|];
      forall i :: 0 <= i < |files| ==> Put(h, f.path, sha(f.content))[i] == Entry(files[i].path, sha(files[i].content))
  {
    var f := files[|h|];
    assert f.path !in Keys(h) by {
      forall i | 0 <= i < |h| ensures Keys(h)[i] != f.path {
        assert Keys(h)[i] == files[i].path;
      }
    }
    PutNewKey(h, f.path, sha(f.content));
    var r := h + [Entry(f.path, sha(f.content))];
    forall i | 0 <= i < |files| ensures r[i] == Entry(files[i].path, sha(files[i].content)) {
      if i < |h| {
        assert r[i] == h[i];
      }
    }
  }

  /**
   * Whatever the order and repetitions, the dictionary has each path once and
   * holds for it the digest of the last file read under that path.
   */
  lemma {:induction false} DigestOfLastRead(files: seq<SourceFile>, sha: Hasher, k: nat)
    requires k < |files| && forall j :: k < j < |files| ==> files[j].path != files[k].path
    ensures Distinct(Keys(Digests(files, sha)))
    ensures Get(Digests(files, sha), files[k].path) == Some(sha(files[k].content))
  {
    var init := files[..|files| - 1];
    var f := files[|files| - 1];
    if init != [] {
      DigestOfLastRead(init, sha, if k < |init| then k else |init| - 1);
    }
    PutKeepsDistinct(Digests(init, sha), f.path, sha(f.content));
    PutGet(Digests(init, sha), f.path, sha(f.content), files[k].path);
  }

  /**
   * The files a sequence of writes leaves under `out`, apart from whatever an
   * earlier build left there: a later write to a path replaces an earlier one.
   */
  function Tree(writes: seq<Write>): map<string, string>
  {
    if writes == [] then map[]
    else
      var last := writes[|writes| - 1];
      Tree(writes[..|writes| - 1])[last.path := last.text]
  }

  /** The files this run leaves under `out` are exactly the paths it writes to. */
  lemma {:induction false} TreeKeys(writes: seq<Write>)
    ensures Tree(writes).Keys == set w | w in writes :: w.path
  {
    if writes != [] {
      var init := writes[..|writes| - 1];
      var last := writes[|writes| - 1];
      assert writes == init + [last];
      TreeKeys(init);
      assert (set w | w in writes :: w.path) == (set w | w in init :: w.path) + {last.path};
    }
  }

  /** Writes to distinct paths leave one output file each, holding what was written to it. */
  lemma {:induction false} TreeOfDistinctWrites(writes: seq<Write>)
    requires forall i, j :: 0 <= i < j < |writes| ==> writes[i].path != writes[j].path
    ensures |Tree(writes)| == |writes|
    ensures forall i :: 0 <= i < |writes| ==> writes[i].path in Tree(writes) && Tree(writes)[writes[i].path] == writes[i].text
  {
    if writes != [] {
      var init := writes[..|writes| - 1];
      var last := writes[|writes| - 1];
      forall i | 0 <= i < |init| ensures init[i] == writes[i] { }
      TreeOfDistinctWrites(init);
      TreeKeys(init);
      assert last.path !in Tree(init) by {
        forall w | w in init ensures w.path != last.path {
          var i :| 0 <= i < |init| && init[i] == w;
          assert writes[i] == w;
        }
      }
      var t := Tree(init)[last.path := last.text];
      assert Tree(writes) == t;
      forall i | 0 <= i < |writes| ensures writes[i].path in t && t[writes[i].path] == writes[i].text {
        if i < |init| {
          assert init[i] == writes[i];
        }
      }
    }
  }

  /**
   * A complete run over distinct source paths under `src`, without an `x.json`
   * beside an `x.jsonnet`, writes exactly one output file per source file, and
   * each copied file's output holds the file's own text.
   */
  lemma OneOutputPerFile(files: seq<SourceFile>, eval: Evaluator)
    requires Process(files, eval).Running?
    requires forall i :: 0 <= i < |files| ==> UnderSrc(files[i].path)
    requires forall i, j :: 0 <= i < j < |files| ==> files[i].path != files[j].path
    requires forall i, j :: 0 <= i < |files| && 0 <= j < |files| && IsTemplate(files[i].path) ==> files[i].path != files[j].path + "net"
    ensures |Tree(Process(files, eval).writes)| == |files|
    ensures forall i :: 0 <= i < |files| && !IsTemplate(files[i].path) ==>
              && OutPath(files[i].path) in Tree(Process(files, eval).writes)
              && Tree(Process(files, eval).writes)[OutPath(files[i].path)] == files[i].content
  {
    var w := Process(files, eval).writes;
    ProcessWrites(files, eval);
    forall i, j | 0 <= i < j < |w|
      ensures w[i].path != w[j].path
    {
      OutPathCollision(files[i].path, files[j].path);
    }
    TreeOfDistinctWrites(w);
  }
}
