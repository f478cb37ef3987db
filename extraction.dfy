/**
  What one extraction run does, as values: the loop over the `src` attributes (a fold of
  `Step`), an independent description of the same loop image by image (`Attempts`, cut at the
  first failure by `LeadingSaved`), and the whole run with directory creation, reading the
  HTML file and the final message (`Run`).
*/
module Extraction {
  import opened Wrappers
  import opened Base64
  import opened DataUri
  import opened Paths
  import opened Disks

  /** The line appended when the loop ran to its end. */
  const DoneLine: string := "All SVG images have been downloaded."

  const SavedTag: string := "Saved: "
  const ErrorTag: string := "Error: "

  function SavedLine(path: string): string
  {
    SavedTag + path
  }

  function ErrorLine(message: string): string
  {
    ErrorTag + message
  }

  predicate IsSavedLine(line: string)
  {
    |SavedTag| <= |line| && line[..|SavedTag|] == SavedTag
  }

  predicate IsErrorLine(line: string)
  {
    |ErrorTag| <= |line| && line[..|ErrorTag|] == ErrorTag
  }

  /** The unchecked exceptions the loop can raise: `split(",")[1]` on a `src` with no field 1,
      and the decoder's rejection of malformed base64.  `catch (IOException e)` lets both
      through, so the run ends with neither a done line nor an error line. */
  datatype Unchecked = ArrayIndexOutOfBounds | IllegalArgument

  /** Whether the loop is still going, or what stopped it. */
  datatype Stop = Running | IoFailure(message: string) | Thrown(exception: Unchecked)

  /** The loop's state: the file system, `svgCounter`, the lines appended so far, and why it
      stopped, if it did. */
  datatype LoopState = LoopState(disk: Disk, counter: nat, saved: seq<string>, stop: Stop)

  /** How the image with ordinal `k` fares, taken on its own: it is saved with the given
      contents, or it stops the loop. */
  datatype Attempt = Saved(data: seq<Byte>) | Failed(stop: Halt)

  /** A reason to stop. */
  type Halt = s: Stop | !s.Running? witness Thrown(IllegalArgument)

  /** Handling a qualifying `src` as ordinal `k` on a file system with the directories and
      faults of `d`. */
  function TryImage(src: string, k: nat, dir: string, d: Disk, recode: seq<Byte> -> seq<Byte>): Attempt
  {
    match PayloadOf(src)
    case None => Failed(Thrown(ArrayIndexOutOfBounds))
    case Some(payload) =>
      match Decode(payload)
      case None => Failed(Thrown(IllegalArgument))
      case Some(bytes) =>
        match WriteError(d, dir, FilePath(dir, k))
        case Some(message) => Failed(IoFailure(message))
        case None => Saved(recode(bytes))
  }

  /** One iteration of the loop, for the `src` of one `<img>` element: nothing happens once
      the loop has stopped or when the prefix does not match; otherwise the counter goes up
      and the image is handled under the new ordinal. */
  function Step(st: LoopState, src: string, dir: string, recode: seq<Byte> -> seq<Byte>): LoopState
  {
    if !st.stop.Running? || !Qualifies(src) then st
    else Record(st, TryImage(src, st.counter + 1, dir, st.disk, recode), dir)
  }

  /** The state after image `st.counter + 1` fared as `x`. */
  function Record(st: LoopState, x: Attempt, dir: string): LoopState
  {
    var n := st.counter + 1;
    match x
    case Failed(stop) => st.(counter := n, stop := stop)
    case Saved(data) =>
      var path := FilePath(dir, n);
      LoopState(st.disk.(files := st.disk.files[path := data]), n, st.saved + [SavedLine(path)], Running)
  }

  /** `Step` unfolded for a qualifying `src` on a running loop, case by case in the order the
      loop body runs; the in-place loop body is checked against it. */
  lemma StepQualifying(st: LoopState, src: string, dir: string, recode: seq<Byte> -> seq<Byte>)
    requires st.stop.Running? && Qualifies(src)
    ensures var n := st.counter + 1;
            PayloadOf(src).None? ==>
              Step(st, src, dir, recode) == st.(counter := n, stop := Thrown(ArrayIndexOutOfBounds))
    ensures var n := st.counter + 1;
            PayloadOf(src).Some? && Decode(PayloadOf(src).value).None? ==>
              Step(st, src, dir, recode) == st.(counter := n, stop := Thrown(IllegalArgument))
    ensures var n := st.counter + 1;
            var path := FilePath(dir, n);
            PayloadOf(src).Some? && Decode(PayloadOf(src).value).Some? ==>
              Step(st, src, dir, recode)
              == match WriteError(st.disk, dir, path)
                 case Some(message) => st.(counter := n, stop := IoFailure(message))
                 case None =>
                   LoopState(st.disk.(files := st.disk.files[path := recode(Decode(PayloadOf(src).value).value)]),
                             n, st.saved + [SavedLine(path)], Running)
  {
  }

  /** The loop over `srcs` in document order, starting on the file system `d`. */
  function LoopOver(srcs: seq<string>, dir: string, d: Disk, recode: seq<Byte> -> seq<Byte>): LoopState
    decreases |srcs|
  {
    if srcs == [] then LoopState(d, 0, [], Running)
    else Step(LoopOver(srcs[..|srcs| - 1], dir, d, recode), srcs[|srcs| - 1], dir, recode)
  }

  /** A stopped loop ignores every further `src`. */
  lemma {:induction false} StoppedStays(srcs: seq<string>, j: nat, dir: string, d: Disk,
                                        recode: seq<Byte> -> seq<Byte>)
    requires j <= |srcs|
    requires !LoopOver(srcs[..j], dir, d, recode).stop.Running?
    ensures LoopOver(srcs, dir, d, recode) == LoopOver(srcs[..j], dir, d, recode)
    decreases |srcs| - j
  {
    if j < |srcs| {
      var k := |srcs| - 1;
      assert srcs[..k][..j] == srcs[..j];
      StoppedStays(srcs[..k], j, dir, d, recode);
    } else {
      assert srcs[..j] == srcs;
    }
  }

  /** `tr` lists the states the loop passes through on `srcs`, one before each `src` and the
      final one. */
  predicate IsTrace(tr: seq<LoopState>, srcs: seq<string>, dir: string, d: Disk, recode: seq<Byte> -> seq<Byte>)
  {
    && |tr| == |srcs| + 1
    && tr[0] == LoopState(d, 0, [], Running)
    && (forall k {:trigger Step(tr[k], srcs[k], dir, recode)} ::
          0 <= k < |srcs| ==> tr[k + 1] == Step(tr[k], srcs[k], dir, recode))
  }

  /** Every loop has its trace, which ends where the loop ends, and where it already is once
      it has stopped. */
  lemma {:induction false} LoopTrace(srcs: seq<string>, dir: string, d: Disk, recode: seq<Byte> -> seq<Byte>)
    returns (tr: seq<LoopState>)
    ensures IsTrace(tr, srcs, dir, d, recode)
    ensures tr[|srcs|] == LoopOver(srcs, dir, d, recode)
    ensures forall k :: 0 <= k <= |srcs| && !tr[k].stop.Running? ==> tr[|srcs|] == tr[k]
    decreases |srcs|
  {
    if srcs == [] {
      tr := [LoopState(d, 0, [], Running)];
    } else {
      var n := |srcs| - 1;
      var init := srcs[..n];
      var tr' := LoopTrace(init, dir, d, recode);
      var last := Step(tr'[n], srcs[n], dir, recode);
      tr := tr' + [last];
      forall k | 0 <= k < |srcs|
        ensures tr[k + 1] == Step(tr[k], srcs[k], dir, recode)
      {
        if k < n {
          assert init[k] == srcs[k];
          assert tr'[k + 1] == Step(tr'[k], init[k], dir, recode);
        }
      }
      forall k | 0 <= k <= |srcs| && !tr[k].stop.Running?
        ensures tr[|srcs|] == tr[k]
      {
        if k < |srcs| {
          assert tr'[n] == tr'[k];
        }
      }
    }
  }

  /** The qualifying `src` values, in document order. */
  function Qualifying(srcs: seq<string>): (q: seq<string>)
    ensures |q| <= |srcs|
    ensures forall k :: 0 <= k < |q| ==> Qualifies(q[k])
    decreases |srcs|
  {
    if srcs == [] then []
    else
      var init, last := srcs[..|srcs| - 1], srcs[|srcs| - 1];
      if Qualifies(last) then Qualifying(init) + [last] else Qualifying(init)
  }

  /** The qualifying values are exactly the `src` values that qualify. */
  lemma {:induction false} QualifyingMembers(srcs: seq<string>)
    ensures forall s :: s in Qualifying(srcs) <==> s in srcs && Qualifies(s)
    decreases |srcs|
  {
    if srcs != [] {
      var init, last := srcs[..|srcs| - 1], srcs[|srcs| - 1];
      assert srcs == init + [last];
      QualifyingMembers(init);
    }
  }

  /** A single `src` is kept exactly when it qualifies. */
  lemma QualifyingSingleton(src: string)
    ensures Qualifying([src]) == if Qualifies(src) then [src] else []
  {
    assert [src][..0] == [];
  }

  /** Filtering a concatenation filters each part, in order. */
  lemma {:induction false} QualifyingConcat(a: seq<string>, b: seq<string>)
    ensures Qualifying(a + b) == Qualifying(a) + Qualifying(b)
    decreases |b|
  {
    if b == [] {
      assert a + b == a;
    } else {
      var init, last := b[..|b| - 1], b[|b| - 1];
      assert (a + b)[..|a + b| - 1] == a + init;
      assert (a + b)[|a + b| - 1] == last;
      QualifyingConcat(a, init);
    }
  }

  /** A `src` that is the bare prefix has no field 1: the image fails with
      `ArrayIndexOutOfBoundsException`, whatever its ordinal and the file system. */
  lemma BarePrefixFails(k: nat, dir: string, d: Disk, recode: seq<Byte> -> seq<Byte>)
    ensures TryImage(Prefix, k, dir, d, recode) == Failed(Thrown(ArrayIndexOutOfBounds))
  {
    BarePrefixThrows();
  }

  /** How an image fares does not depend on which files exist already, except for the output
      directory itself. */
  lemma TryImageIgnoresFiles(src: string, k: nat, dir: string, d: Disk, e: Disk, recode: seq<Byte> -> seq<Byte>)
    requires d.dirs == e.dirs && d.faults == e.faults && (dir in d.files <==> dir in e.files)
    ensures TryImage(src, k, dir, d, recode) == TryImage(src, k, dir, e, recode)
  {
    WriteErrorIgnoresFiles(d, e, dir, FilePath(dir, k));
  }

  /** Every qualifying image, each with its ordinal (1-based position among the qualifying). */
  function Attempts(q: seq<string>, dir: string, d: Disk, recode: seq<Byte> -> seq<Byte>): (a: seq<Attempt>)
    ensures |a| == |q|
    ensures forall k {:trigger a[k]} :: 0 <= k < |q| ==> a[k] == TryImage(q[k], k + 1, dir, d, recode)
  {
    seq(|q|, k requires 0 <= k < |q| => TryImage(q[k], k + 1, dir, d, recode))
  }

  /** How many attempts succeed before the first failure. */
  function LeadingSaved(a: seq<Attempt>): (m: nat)
    ensures m <= |a|
    ensures forall k :: 0 <= k < m ==> a[k].Saved?
    ensures m < |a| ==> a[m].Failed?
    decreases |a|
  {
    if a == [] || a[0].Failed? then 0 else 1 + LeadingSaved(a[1..])
  }

  /** Appending a value appends its attempt, under the next ordinal. */
  lemma AttemptsAppend(q: seq<string>, src: string, dir: string, d: Disk, recode: seq<Byte> -> seq<Byte>)
    ensures Attempts(q + [src], dir, d, recode) == Attempts(q, dir, d, recode) + [TryImage(src, |q| + 1, dir, d, recode)]
  {
    var f := (s: string, k: nat) => TryImage(s, k, dir, d, recode);
    IndexedAppend(q, src, Attempts(q + [src], dir, d, recode), Attempts(q, dir, d, recode), f);
  }

  /** Sequences built element by element from their position: appending a value to the source
      appends one element to the result. */
  lemma IndexedAppend<S, T>(q: seq<S>, x: S, a: seq<T>, b: seq<T>, f: (S, nat) -> T)
    requires |a| == |q| + 1 && forall k :: 0 <= k < |q| + 1 ==> a[k] == f((q + [x])[k], k + 1)
    requires |b| == |q| && forall k :: 0 <= k < |q| ==> b[k] == f(q[k], k + 1)
    ensures a == b + [f(x, |q| + 1)]
  {
    forall k | 0 <= k < |a| ensures a[k] == (b + [f(x, |q| + 1)])[k] {
      if k < |q| {
        assert (q + [x])[k] == q[k];
      }
    }
  }

  /** `LeadingSaved` is pinned down by its contract. */
  lemma LeadingSavedUnique(a: seq<Attempt>, m: nat)
    requires m <= |a|
    requires forall k :: 0 <= k < m ==> a[k].Saved?
    requires m < |a| ==> a[m].Failed?
    ensures LeadingSaved(a) == m
  {
  }

  /** The files after writing the first `m` images, ordinal by ordinal. */
  function ApplyWrites(files: map<string, seq<Byte>>, dir: string, a: seq<Attempt>, m: nat): (r: map<string, seq<Byte>>)
    requires m <= |a| && forall k :: 0 <= k < m ==> a[k].Saved?
    ensures forall k :: 1 <= k <= m ==> FilePath(dir, k) in r
    ensures dir in r <==> dir in files
    decreases m
  {
    if m == 0 then files
    else ApplyWrites(files, dir, a, m - 1)[FilePath(dir, m) := a[m - 1].data]
  }

  /** The files after the writes: the old ones and the paths of ordinals 1 to m. */
  lemma {:induction false} ApplyWritesKeys(files: map<string, seq<Byte>>, dir: string, a: seq<Attempt>, m: nat)
    requires m <= |a| && forall k :: 0 <= k < m ==> a[k].Saved?
    ensures ApplyWrites(files, dir, a, m).Keys == files.Keys + (set k | 1 <= k <= m :: FilePath(dir, k))
    decreases m
  {
    if m > 0 {
      ApplyWritesKeys(files, dir, a, m - 1);
    }
  }

  /** Writes of the same images give the same files, whatever follows them. */
  lemma {:induction false} ApplyWritesPrefix(files: map<string, seq<Byte>>, dir: string,
                                             a: seq<Attempt>, b: seq<Attempt>, m: nat)
    requires m <= |a| && m <= |b|
    requires forall k :: 0 <= k < m ==> a[k].Saved? && a[k] == b[k]
    ensures ApplyWrites(files, dir, a, m) == ApplyWrites(files, dir, b, m)
    decreases m
  {
    if m > 0 {
      ApplyWritesPrefix(files, dir, a, b, m - 1);
    }
  }

  /** Each written path holds its own image. */
  lemma {:induction false} ApplyWritesWritten(files: map<string, seq<Byte>>, dir: string, a: seq<Attempt>, m: nat)
    requires m <= |a| && forall k :: 0 <= k < m ==> a[k].Saved?
    ensures forall k :: 1 <= k <= m ==> ApplyWrites(files, dir, a, m)[FilePath(dir, k)] == a[k - 1].data
    decreases m
  {
    if m > 0 {
      ApplyWritesWritten(files, dir, a, m - 1);
      forall k | 1 <= k < m
        ensures ApplyWrites(files, dir, a, m)[FilePath(dir, k)] == a[k - 1].data
      {
        FilePathInjective(dir, k, m);
      }
    }
  }

  /** Every path that is not written keeps its old contents. */
  lemma {:induction false} ApplyWritesUntouched(files: map<string, seq<Byte>>, dir: string, a: seq<Attempt>,
                                                m: nat, p: string)
    requires m <= |a| && forall k :: 0 <= k < m ==> a[k].Saved?
    requires p in files && forall k :: 1 <= k <= m ==> p != FilePath(dir, k)
    ensures p in ApplyWrites(files, dir, a, m) && ApplyWrites(files, dir, a, m)[p] == files[p]
    decreases m
  {
    if m > 0 {
      ApplyWritesUntouched(files, dir, a, m - 1, p);
    }
  }

  /** The "Saved:" lines for ordinals 1 to m, in order. */
  function SavedLines(dir: string, m: nat): (r: seq<string>)
    ensures |r| == m
    ensures forall k :: 0 <= k < m ==> r[k] == SavedLine(FilePath(dir, k + 1))
  {
    seq(m, k requires 0 <= k < m => SavedLine(FilePath(dir, k + 1)))
  }

  /** `st` is where the loop stands after the attempts `a`, started on `d`: the first `m`
      images (those before the first failing one) are written under ordinals 1..m and
      announced in that order; the loop then has stopped for the reason of image m + 1, or is
      still running when every image was saved. */
  predicate Describes(st: LoopState, a: seq<Attempt>, dir: string, d: Disk)
  {
    var m := LeadingSaved(a);
    && st.disk == d.(files := ApplyWrites(d.files, dir, a, m))
    && st.saved == SavedLines(dir, m)
    && st.stop == (if m == |a| then Running else a[m].stop)
    && st.counter == (if m == |a| then |a| else m + 1)
  }

  /** A stopped loop ignores one more attempt. */
  lemma ExtendStopped(st: LoopState, a: seq<Attempt>, x: Attempt, dir: string, d: Disk)
    requires Describes(st, a, dir, d)
    requires !st.stop.Running?
    ensures Describes(st, a + [x], dir, d)
  {
    var m := LeadingSaved(a);
    var b := a + [x];
    assert m < |a|;
    assert b[m] == a[m];
    LeadingSavedUnique(b, m);
    ApplyWritesPrefix(d.files, dir, a, b, m);
  }

  /** A running loop records one more attempt: a saved image is written and announced under
      the next ordinal, a failed one stops the loop. */
  lemma ExtendRunning(st: LoopState, a: seq<Attempt>, x: Attempt, dir: string, d: Disk)
    requires Describes(st, a, dir, d)
    requires st.stop.Running?
    ensures Describes(Record(st, x, dir), a + [x], dir, d)
  {
    var m := LeadingSaved(a);
    var b := a + [x];
    assert m == |a| && st.counter == m;
    assert forall k :: 0 <= k < m ==> b[k] == a[k];
    ApplyWritesPrefix(d.files, dir, a, b, m);
    var files := ApplyWrites(d.files, dir, b, m);
    assert st.disk == d.(files := files);
    if x.Saved? {
      var path := FilePath(dir, m + 1);
      LeadingSavedUnique(b, |b|);
      assert Record(st, x, dir) == LoopState(d.(files := files[path := x.data]), m + 1,
                                             st.saved + [SavedLine(path)], Running);
      assert SavedLines(dir, m + 1) == SavedLines(dir, m) + [SavedLine(path)];
      assert ApplyWrites(d.files, dir, b, m + 1) == files[path := x.data];
    } else {
      LeadingSavedUnique(b, m);
      assert Record(st, x, dir) == st.(counter := m + 1, stop := x.stop);
    }
  }

  /** On a running loop described by `a`, a qualifying `src` fares as it would on the
      starting file system. */
  lemma StepRunning(st: LoopState, a: seq<Attempt>, src: string, dir: string, d: Disk,
                    recode: seq<Byte> -> seq<Byte>)
    requires Describes(st, a, dir, d) && st.stop.Running? && Qualifies(src)
    ensures st.counter == |a|
    ensures Step(st, src, dir, recode) == Record(st, TryImage(src, |a| + 1, dir, d, recode), dir)
  {
    var m := LeadingSaved(a);
    assert m == |a|;
    var files := ApplyWrites(d.files, dir, a, m);
    assert st.disk == d.(files := files);
    assert dir in files <==> dir in d.files;
    TryImageIgnoresFiles(src, |a| + 1, dir, st.disk, d, recode);
  }

  /** The loop, image by image: it is described by the attempts of the qualifying `src`
      values, each judged on the directories and faults it started with. */
  lemma {:induction false} LoopCharacterization(srcs: seq<string>, dir: string, d: Disk,
                                                recode: seq<Byte> -> seq<Byte>)
    ensures Describes(LoopOver(srcs, dir, d, recode), Attempts(Qualifying(srcs), dir, d, recode), dir, d)
    decreases |srcs|
  {
    if srcs == [] {
      assert SavedLines(dir, 0) == [];
    } else {
      var init, s := srcs[..|srcs| - 1], srcs[|srcs| - 1];
      assert srcs == init + [s];
      LoopCharacterization(init, dir, d, recode);
      LoopCharacterizationStep(init, s, dir, d, recode);
    }
  }

  /** The inductive step of `LoopCharacterization`: one more `src` at the end. */
  lemma LoopCharacterizationStep(init: seq<string>, s: string, dir: string, d: Disk,
                                 recode: seq<Byte> -> seq<Byte>)
    requires Describes(LoopOver(init, dir, d, recode), Attempts(Qualifying(init), dir, d, recode), dir, d)
    ensures Describes(LoopOver(init + [s], dir, d, recode), Attempts(Qualifying(init + [s]), dir, d, recode), dir, d)
  {
    var srcs := init + [s];
    assert srcs[..|srcs| - 1] == init;
    var q0 := Qualifying(init);
    var a0 := Attempts(q0, dir, d, recode);
    var st0 := LoopOver(init, dir, d, recode);
    assert LoopOver(srcs, dir, d, recode) == Step(st0, s, dir, recode);
    DescribesStep(st0, a0, s, dir, d, recode);
    if Qualifies(s) {
      assert Qualifying(srcs) == q0 + [s];
      AttemptsAppend(q0, s, dir, d, recode);
    } else {
      assert Qualifying(srcs) == q0;
    }
  }

  /** One more `src`: a qualifying one adds its attempt, under the next ordinal and judged on
      the starting file system; any other changes nothing. */
  lemma DescribesStep(st: LoopState, a: seq<Attempt>, src: string, dir: string, d: Disk,
                      recode: seq<Byte> -> seq<Byte>)
    requires Describes(st, a, dir, d)
    ensures Qualifies(src) ==>
              Describes(Step(st, src, dir, recode), a + [TryImage(src, |a| + 1, dir, d, recode)], dir, d)
    ensures !Qualifies(src) ==> Step(st, src, dir, recode) == st
  {
    if Qualifies(src) {
      var x := TryImage(src, |a| + 1, dir, d, recode);
      if st.stop.Running? {
        ExtendRunning(st, a, x, dir, d);
        StepRunning(st, a, src, dir, d, recode);
      } else {
        ExtendStopped(st, a, x, dir, d);
      }
    }
  }

  /** The `src` values that do not qualify change nothing at all: the loop behaves as if only
      the qualifying ones were there. */
  lemma UnqualifiedIgnored(srcs: seq<string>, dir: string, d: Disk, recode: seq<Byte> -> seq<Byte>)
    ensures LoopOver(srcs, dir, d, recode) == LoopOver(Qualifying(srcs), dir, d, recode)
  {
    var q := Qualifying(srcs);
    QualifyingIdempotent(q);
    LoopCharacterization(srcs, dir, d, recode);
    LoopCharacterization(q, dir, d, recode);
  }

  /** Filtering a sequence of qualifying values keeps all of them. */
  lemma {:induction false} QualifyingIdempotent(q: seq<string>)
    requires forall k :: 0 <= k < |q| ==> Qualifies(q[k])
    ensures Qualifying(q) == q
    decreases |q|
  {
    if q != [] {
      QualifyingIdempotent(q[..|q| - 1]);
      assert q == q[..|q| - 1] + [q[|q| - 1]];
    }
  }

  /** What one run reports: the file system afterwards, the lines appended to the output
      area, and the unchecked exception that escaped, if one did. */
  datatype RunResult = RunResult(disk: Disk, messages: seq<string>, thrown: Option<Unchecked>)

  /** The end of the `try` block: the done line after a loop that ran to its end, one error
      line after an `IOException`, and nothing more when an unchecked exception escapes. */
  function Conclude(st: LoopState): RunResult
  {
    match st.stop
    case Running => RunResult(st.disk, st.saved + [DoneLine], None)
    case IoFailure(message) => RunResult(st.disk, st.saved + [ErrorLine(message)], None)
    case Thrown(e) => RunResult(st.disk, st.saved, Some(e))
  }

  /** `processSVGFile(htmlFile, dir)`: create the output directory (before anything is read),
      read the HTML file, and run the loop over the `src` values that `parse` finds in it. */
  function Run(d: Disk, htmlFile: string, dir: string, parse: seq<Byte> -> seq<string>,
               recode: seq<Byte> -> seq<Byte>): RunResult
  {
    var d1 := Mkdirs(d, dir);
    match Read(d1, htmlFile)
    case Failure(message) => RunResult(d1, [ErrorLine(message)], None)
    case Success(html) => Conclude(LoopOver(parse(html), dir, d1, recode))
  }

  /** A run that ended normally with the done line. */
  predicate Completed(r: RunResult)
  {
    r.thrown.None? && |r.messages| > 0 && r.messages[|r.messages| - 1] == DoneLine
  }

  /** The images of a run whose HTML file was read: the attempts for its qualifying `src`
      values, judged on the file system after the output directory was created. */
  function RunAttempts(d: Disk, htmlFile: string, dir: string, parse: seq<Byte> -> seq<string>,
                       recode: seq<Byte> -> seq<Byte>): (a: seq<Attempt>)
    requires Read(Mkdirs(d, dir), htmlFile).Success?
    ensures |a| == |Qualifying(parse(Read(Mkdirs(d, dir), htmlFile).value))|
  {
    var d1 := Mkdirs(d, dir);
    Attempts(Qualifying(parse(Read(d1, htmlFile).value)), dir, d1, recode)
  }

  /** The three kinds of line cannot be confused with one another. */
  lemma LineKinds()
    ensures !IsSavedLine(DoneLine) && !IsErrorLine(DoneLine)
    ensures forall message :: IsErrorLine(ErrorLine(message)) && !IsSavedLine(ErrorLine(message))
    ensures forall path :: IsSavedLine(SavedLine(path)) && SavedLine(path) != DoneLine
  {
    assert DoneLine[0] != SavedTag[0] && DoneLine[0] != ErrorTag[0];
    forall message ensures IsErrorLine(ErrorLine(message)) && !IsSavedLine(ErrorLine(message)) {
      assert ErrorLine(message)[..|ErrorTag|] == ErrorTag;
      assert ErrorLine(message)[0] != SavedTag[0];
    }
    forall path ensures IsSavedLine(SavedLine(path)) && SavedLine(path) != DoneLine {
      assert SavedLine(path)[..|SavedTag|] == SavedTag;
      assert SavedLine(path)[0] != DoneLine[0];
    }
  }

  /** A run whose HTML file cannot be read has still created the output directory; it appends
      one error line and writes nothing. */
  lemma RunReadFailure(d: Disk, htmlFile: string, dir: string, parse: seq<Byte> -> seq<string>,
                       recode: seq<Byte> -> seq<Byte>)
    requires Read(Mkdirs(d, dir), htmlFile).Failure?
    ensures var r := Run(d, htmlFile, dir, parse, recode);
            && r.disk.files == d.files
            && r.disk.dirs == Mkdirs(d, dir).dirs
            && r.messages == [ErrorLine(Read(Mkdirs(d, dir), htmlFile).error)]
            && r.thrown.None?
  {
  }

  /** A run whose HTML file was read: the first `m` images are written and announced in
      ordinal order; then the run ends with the done line when every qualifying image was
      saved, with one error line when a write failed, and with no further line at all when
      an unchecked exception escaped. */
  lemma RunCharacterization(d: Disk, htmlFile: string, dir: string, parse: seq<Byte> -> seq<string>,
                            recode: seq<Byte> -> seq<Byte>)
    requires Read(Mkdirs(d, dir), htmlFile).Success?
    ensures var a := RunAttempts(d, htmlFile, dir, parse, recode);
            var m := LeadingSaved(a);
            var r := Run(d, htmlFile, dir, parse, recode);
            && r.disk.dirs == Mkdirs(d, dir).dirs
            && r.disk.faults == d.faults
            && r.disk.files == ApplyWrites(d.files, dir, a, m)
            && (m == |a| ==> r.messages == SavedLines(dir, m) + [DoneLine] && r.thrown.None?)
            && (m < |a| && a[m].stop.IoFailure? ==>
                  r.messages == SavedLines(dir, m) + [ErrorLine(a[m].stop.message)] && r.thrown.None?)
            && (m < |a| && a[m].stop.Thrown? ==>
                  r.messages == SavedLines(dir, m) && r.thrown == Some(a[m].stop.exception))
  {
    var d1 := Mkdirs(d, dir);
    LoopCharacterization(parse(Read(d1, htmlFile).value), dir, d1, recode);
  }

  /** The message protocol of every run: zero or more "Saved:" lines, naming ordinals 1, 2, …
      in order, then exactly one done or "Error:" line, unless an unchecked exception escaped,
      in which case nothing follows the "Saved:" lines. */
  lemma RunMessageProtocol(d: Disk, htmlFile: string, dir: string, parse: seq<Byte> -> seq<string>,
                           recode: seq<Byte> -> seq<Byte>)
    ensures var r := Run(d, htmlFile, dir, parse, recode);
            var saved := if r.thrown.Some? then |r.messages| else |r.messages| - 1;
            && saved >= 0
            && (forall k :: 0 <= k < saved ==> r.messages[k] == SavedLine(FilePath(dir, k + 1)))
            && (r.thrown.None? ==> r.messages[saved] == DoneLine || IsErrorLine(r.messages[saved]))
            && (forall k :: 0 <= k < |r.messages| ==> (IsSavedLine(r.messages[k]) <==> k < saved))
  {
    LineKinds();
    if Read(Mkdirs(d, dir), htmlFile).Success? {
      RunCharacterization(d, htmlFile, dir, parse, recode);
    }
  }

  /** What a saved attempt holds: the payload was there, it decoded, and the data written is
      the recoded decoding. */
  lemma SavedAttempt(src: string, k: nat, dir: string, d: Disk, recode: seq<Byte> -> seq<Byte>)
    requires TryImage(src, k, dir, d, recode).Saved?
    ensures PayloadOf(src).Some? && Decode(PayloadOf(src).value).Some?
    ensures TryImage(src, k, dir, d, recode).data == recode(Decode(PayloadOf(src).value).value)
  {
  }

  /** The written files form the prefix 1..m of the ordinals, m at most the number of
      qualifying images, and every other file is left as it was. */
  lemma RunFilesAreOrdinalPrefix(d: Disk, htmlFile: string, dir: string, parse: seq<Byte> -> seq<string>,
                                 recode: seq<Byte> -> seq<Byte>)
    requires Read(Mkdirs(d, dir), htmlFile).Success?
    ensures var q := Qualifying(parse(Read(Mkdirs(d, dir), htmlFile).value));
            var m := LeadingSaved(RunAttempts(d, htmlFile, dir, parse, recode));
            var files := Run(d, htmlFile, dir, parse, recode).disk.files;
            && m <= |q|
            && files.Keys == d.files.Keys + (set k | 1 <= k <= m :: FilePath(dir, k))
            && (forall p :: p in d.files && (forall k :: 1 <= k <= m ==> p != FilePath(dir, k))
                  ==> files[p] == d.files[p])
  {
    var a := RunAttempts(d, htmlFile, dir, parse, recode);
    var m := LeadingSaved(a);
    var files := Run(d, htmlFile, dir, parse, recode).disk.files;
    RunCharacterization(d, htmlFile, dir, parse, recode);
    assert files == ApplyWrites(d.files, dir, a, m);
    ApplyWritesKeys(d.files, dir, a, m);
    forall p | p in d.files && (forall k :: 1 <= k <= m ==> p != FilePath(dir, k))
      ensures files[p] == d.files[p]
    {
      ApplyWritesUntouched(d.files, dir, a, m, p);
    }
  }

  /** File k of a run holds the (recoded) decoding of the payload of the k-th qualifying
      `src`. */
  lemma RunFileContents(d: Disk, htmlFile: string, dir: string, parse: seq<Byte> -> seq<string>,
                        recode: seq<Byte> -> seq<Byte>, k: nat)
    requires Read(Mkdirs(d, dir), htmlFile).Success?
    requires 1 <= k <= LeadingSaved(RunAttempts(d, htmlFile, dir, parse, recode))
    ensures var q := Qualifying(parse(Read(Mkdirs(d, dir), htmlFile).value));
            var files := Run(d, htmlFile, dir, parse, recode).disk.files;
            && PayloadOf(q[k - 1]).Some?
            && Decode(PayloadOf(q[k - 1]).value).Some?
            && FilePath(dir, k) in files
            && files[FilePath(dir, k)] == recode(Decode(PayloadOf(q[k - 1]).value).value)
  {
    var d1 := Mkdirs(d, dir);
    var q := Qualifying(parse(Read(d1, htmlFile).value));
    RunCharacterization(d, htmlFile, dir, parse, recode);
    WrittenImage(q, dir, d1, d.files, recode, k);
  }

  /** After the writes of the leading saved attempts, file k holds the recoded decoding of
      the payload of value k. */
  lemma WrittenImage(q: seq<string>, dir: string, d: Disk, files: map<string, seq<Byte>>,
                     recode: seq<Byte> -> seq<Byte>, k: nat)
    requires 1 <= k <= LeadingSaved(Attempts(q, dir, d, recode))
    ensures var a := Attempts(q, dir, d, recode);
            var written := ApplyWrites(files, dir, a, LeadingSaved(a));
            && PayloadOf(q[k - 1]).Some?
            && Decode(PayloadOf(q[k - 1]).value).Some?
            && FilePath(dir, k) in written
            && written[FilePath(dir, k)] == recode(Decode(PayloadOf(q[k - 1]).value).value)
  {
    var a := Attempts(q, dir, d, recode);
    var m := LeadingSaved(a);
    ApplyWritesWritten(files, dir, a, m);
    var written := ApplyWrites(files, dir, a, m);
    assert a[k - 1].Saved?;
    assert written[FilePath(dir, k)] == a[k - 1].data;
    assert a[k - 1] == TryImage(q[k - 1], k, dir, d, recode);
    SavedAttempt(q[k - 1], k, dir, d, recode);
  }

  /** A run ends with the done line exactly when every qualifying image was saved, and then
      it wrote exactly the files 1..K and announced each of them. */
  lemma CompleteRun(d: Disk, htmlFile: string, dir: string, parse: seq<Byte> -> seq<string>,
                    recode: seq<Byte> -> seq<Byte>)
    requires Read(Mkdirs(d, dir), htmlFile).Success?
    ensures var a := RunAttempts(d, htmlFile, dir, parse, recode);
            var r := Run(d, htmlFile, dir, parse, recode);
            && (Completed(r) <==> forall k :: 0 <= k < |a| ==> a[k].Saved?)
            && ((forall k :: 0 <= k < |a| ==> a[k].Saved?) ==>
                  && r.messages == SavedLines(dir, |a|) + [DoneLine]
                  && r.disk.files.Keys == d.files.Keys + (set k | 1 <= k <= |a| :: FilePath(dir, k)))
  {
    var a := RunAttempts(d, htmlFile, dir, parse, recode);
    var m := LeadingSaved(a);
    RunCharacterization(d, htmlFile, dir, parse, recode);
    ApplyWritesKeys(d.files, dir, a, m);
    LineKinds();
  }

  /** An image whose payload holds a foreign character fails in the decoder. */
  lemma ForeignPayloadFails(src: string, k: nat, dir: string, d: Disk, recode: seq<Byte> -> seq<Byte>, i: nat)
    requires PayloadOf(src).Some? && i < |PayloadOf(src).value|
    requires PayloadOf(src).value[i] !in Alphabet && PayloadOf(src).value[i] != Pad
    ensures TryImage(src, k, dir, d, recode) == Failed(Thrown(IllegalArgument))
  {
    ForeignCharFails(PayloadOf(src).value, i);
  }

  /** A qualifying image whose payload holds a character outside the base64 alphabet (and is
      not the padding character) is never written: the run stops at it or earlier, no done
      line is appended, and when every earlier image was saved the decoder's exception
      escapes right there. */
  lemma ForeignCharacterStopsRun(d: Disk, htmlFile: string, dir: string,
                                 parse: seq<Byte> -> seq<string>, recode: seq<Byte> -> seq<Byte>,
                                 j: nat, i: nat)
    requires Read(Mkdirs(d, dir), htmlFile).Success?
    requires var q := Qualifying(parse(Read(Mkdirs(d, dir), htmlFile).value));
             && j < |q| && PayloadOf(q[j]).Some?
             && i < |PayloadOf(q[j]).value|
             && PayloadOf(q[j]).value[i] !in Alphabet && PayloadOf(q[j]).value[i] != Pad
    ensures var a := RunAttempts(d, htmlFile, dir, parse, recode);
            var r := Run(d, htmlFile, dir, parse, recode);
            && LeadingSaved(a) <= j
            && DoneLine !in r.messages
            && (LeadingSaved(a) == j ==> r.thrown == Some(IllegalArgument) && r.messages == SavedLines(dir, j))
  {
    var d1 := Mkdirs(d, dir);
    var q := Qualifying(parse(Read(d1, htmlFile).value));
    var a := RunAttempts(d, htmlFile, dir, parse, recode);
    var r := Run(d, htmlFile, dir, parse, recode);
    ForeignPayloadFails(q[j], j + 1, dir, d1, recode, i);
    assert a[j] == Failed(Thrown(IllegalArgument));
    var m := LeadingSaved(a);
    assert m <= j;
    RunCharacterization(d, htmlFile, dir, parse, recode);
    LineKinds();
    var saved := SavedLines(dir, m);
    assert DoneLine !in saved by {
      forall k | 0 <= k < m ensures saved[k] != DoneLine {
        assert saved[k] == SavedLine(FilePath(dir, k + 1));
      }
    }
    if a[m].stop.IoFailure? {
      assert r.messages == saved + [ErrorLine(a[m].stop.message)];
      assert ErrorLine(a[m].stop.message) != DoneLine;
    } else {
      assert r.messages == saved;
    }
  }

  /** How images fare does not depend on which files exist already, except for the output
      directory itself. */
  lemma AttemptsIgnoreFiles(q: seq<string>, dir: string, d: Disk, e: Disk, recode: seq<Byte> -> seq<Byte>)
    requires d.dirs == e.dirs && d.faults == e.faults && (dir in d.files <==> dir in e.files)
    ensures Attempts(q, dir, d, recode) == Attempts(q, dir, e, recode)
  {
    forall k | 0 <= k < |q| ensures Attempts(q, dir, d, recode)[k] == Attempts(q, dir, e, recode)[k] {
      TryImageIgnoresFiles(q[k], k + 1, dir, d, e, recode);
    }
  }

  /** Writing the same images a second time changes nothing. */
  lemma ApplyWritesIdempotent(files: map<string, seq<Byte>>, dir: string, a: seq<Attempt>, m: nat)
    requires m <= |a| && forall k :: 0 <= k < m ==> a[k].Saved?
    ensures ApplyWrites(ApplyWrites(files, dir, a, m), dir, a, m) == ApplyWrites(files, dir, a, m)
  {
    var f1 := ApplyWrites(files, dir, a, m);
    var f2 := ApplyWrites(f1, dir, a, m);
    ApplyWritesKeys(files, dir, a, m);
    ApplyWritesKeys(f1, dir, a, m);
    ApplyWritesWritten(files, dir, a, m);
    ApplyWritesWritten(f1, dir, a, m);
    forall p | p in f2 ensures f2[p] == f1[p] {
      if exists k :: 1 <= k <= m && p == FilePath(dir, k) {
        var k :| 1 <= k <= m && p == FilePath(dir, k);
        assert f2[p] == a[k - 1].data;
      } else {
        ApplyWritesUntouched(f1, dir, a, m, p);
      }
    }
  }

  /** Running twice on the same input into the same directory, when the first run completed
      and did not overwrite the HTML file itself, gives the same result again. */
  lemma RunIdempotent(d: Disk, htmlFile: string, dir: string, parse: seq<Byte> -> seq<string>,
                      recode: seq<Byte> -> seq<Byte>)
    requires Read(Mkdirs(d, dir), htmlFile).Success?
    requires Completed(Run(d, htmlFile, dir, parse, recode))
    requires forall k :: 1 <= k <= |RunAttempts(d, htmlFile, dir, parse, recode)| ==> htmlFile != FilePath(dir, k)
    ensures var r := Run(d, htmlFile, dir, parse, recode);
            Run(r.disk, htmlFile, dir, parse, recode) == r
  {
    var d1 := Mkdirs(d, dir);
    var r := Run(d, htmlFile, dir, parse, recode);
    var a := RunAttempts(d, htmlFile, dir, parse, recode);
    CompleteRun(d, htmlFile, dir, parse, recode);
    RunCharacterization(d, htmlFile, dir, parse, recode);
    ApplyWritesUntouched(d.files, dir, a, |a|, htmlFile);
    var e := r.disk;
    assert Mkdirs(e, dir) == e;
    assert Read(e, htmlFile) == Read(d1, htmlFile);
    AttemptsIgnoreFiles(Qualifying(parse(Read(d1, htmlFile).value)), dir, d1, e, recode);
    assert RunAttempts(e, htmlFile, dir, parse, recode) == a;
    RunCharacterization(e, htmlFile, dir, parse, recode);
    ApplyWritesIdempotent(d.files, dir, a, |a|);
  }

  /** A page without a single qualifying image still ends with the done line, having only
      created the output directory. */
  lemma NoImagesRun(d: Disk, htmlFile: string, dir: string, parse: seq<Byte> -> seq<string>,
                    recode: seq<Byte> -> seq<Byte>)
    requires Read(Mkdirs(d, dir), htmlFile).Success?
    requires Qualifying(parse(Read(Mkdirs(d, dir), htmlFile).value)) == []
    ensures Run(d, htmlFile, dir, parse, recode) == RunResult(Mkdirs(d, dir), [DoneLine], None)
  {
    RunCharacterization(d, htmlFile, dir, parse, recode);
    assert SavedLines(dir, 0) == [];
  }

  /** An output directory that names an existing regular file: nothing is written and no
      image is saved.  A page without images still ends with the done line; otherwise the
      first image ends the run, with the "Not a directory" error when it reaches the write. */
  lemma RunIntoFile(d: Disk, htmlFile: string, dir: string, parse: seq<Byte> -> seq<string>,
                    recode: seq<Byte> -> seq<Byte>)
    requires dir in d.files && dir !in d.dirs
    requires Read(Mkdirs(d, dir), htmlFile).Success?
    ensures var r := Run(d, htmlFile, dir, parse, recode);
            var q := Qualifying(parse(Read(d, htmlFile).value));
            && r.disk == d
            && (q == [] ==> r.messages == [DoneLine] && r.thrown.None?)
            && (q != [] ==> !Completed(r) && |r.messages| <= 1)
            && (q != [] && PayloadOf(q[0]).Some? && Decode(PayloadOf(q[0]).value).Some?
                && FilePath(dir, 1) !in d.faults && FilePath(dir, 1) !in d.dirs
                ==> r.messages == [ErrorLine(FilePath(dir, 1) + NotADirectory)] && r.thrown.None?)
  {
    var d1 := Mkdirs(d, dir);
    assert d1 == d;
    var q := Qualifying(parse(Read(d, htmlFile).value));
    RunCharacterization(d, htmlFile, dir, parse, recode);
    AttemptsIntoFile(q, dir, d, recode);
    assert SavedLines(dir, 0) == [];
    LineKinds();
  }

  /** No image can be saved into a directory that is a regular file; the first one to reach
      the write fails with "Not a directory". */
  lemma AttemptsIntoFile(q: seq<string>, dir: string, d: Disk, recode: seq<Byte> -> seq<Byte>)
    requires dir in d.files && dir !in d.dirs
    ensures LeadingSaved(Attempts(q, dir, d, recode)) == 0
    ensures q != [] && PayloadOf(q[0]).Some? && Decode(PayloadOf(q[0]).value).Some?
            && FilePath(dir, 1) !in d.faults && FilePath(dir, 1) !in d.dirs
            ==> Attempts(q, dir, d, recode)[0].stop == IoFailure(FilePath(dir, 1) + NotADirectory)
  {
    var a := Attempts(q, dir, d, recode);
    if q != [] {
      assert a[0] == TryImage(q[0], 1, dir, d, recode);
      assert WriteError(d, dir, FilePath(dir, 1)).Some?;
    }
  }

  /** An embedded image written as the prefix followed by the RFC 4648 encoding of non-empty
      octets `b` is saved with contents `recode(b)` when its file can be opened. */
  lemma EncodedImageSaved(b: seq<Byte>, k: nat, dir: string, d: Disk, recode: seq<Byte> -> seq<Byte>)
    requires b != []
    requires WriteError(d, dir, FilePath(dir, k)).None?
    ensures Qualifies(Prefix + Encode(b))
    ensures TryImage(Prefix + Encode(b), k, dir, d, recode) == Saved(recode(b))
  {
    var src := Prefix + Encode(b);
    assert src[..|Prefix|] == Prefix && src[|Prefix|..] == Encode(b);
    EncodeAlphabet(b);
    assert ',' !in Encode(b);
    PayloadWithoutComma(src);
    DecodeEncode(b);
  }

  /** The round trip through a whole run: when the qualifying images of a page are the
      encodings of non-empty octet strings, the output directory can be created (it is
      neither faulty nor a regular file) and none of
      the image paths is faulty or a directory, the run completes and file k holds the
      recoded k-th image. */
  lemma EncodedPageRoundTrip(d: Disk, htmlFile: string, dir: string, parse: seq<Byte> -> seq<string>,
                             recode: seq<Byte> -> seq<Byte>, images: seq<seq<Byte>>)
    requires Read(Mkdirs(d, dir), htmlFile).Success?
    requires var q := Qualifying(parse(Read(Mkdirs(d, dir), htmlFile).value));
             |q| == |images| && forall k :: 0 <= k < |q| ==> images[k] != [] && q[k] == Prefix + Encode(images[k])
    requires dir !in d.faults && dir !in d.files
    requires forall k :: 1 <= k <= |images| ==> FilePath(dir, k) !in d.faults && FilePath(dir, k) !in d.dirs
    ensures var r := Run(d, htmlFile, dir, parse, recode);
            && Completed(r)
            && forall k :: 1 <= k <= |images| ==>
                 FilePath(dir, k) in r.disk.files && r.disk.files[FilePath(dir, k)] == recode(images[k - 1])
  {
    var d1 := Mkdirs(d, dir);
    var q := Qualifying(parse(Read(d1, htmlFile).value));
    var a := RunAttempts(d, htmlFile, dir, parse, recode);
    EncodedImagesSaved(q, images, dir, d, recode);
    LeadingSavedUnique(a, |a|);
    CompleteRun(d, htmlFile, dir, parse, recode);
    RunCharacterization(d, htmlFile, dir, parse, recode);
    ApplyWritesWritten(d.files, dir, a, |a|);
  }

  /** Every encoded image of a page is saved when its path can be opened after the output
      directory was created. */
  lemma EncodedImagesSaved(q: seq<string>, images: seq<seq<Byte>>, dir: string, d: Disk,
                           recode: seq<Byte> -> seq<Byte>)
    requires |q| == |images| && forall k :: 0 <= k < |q| ==> images[k] != [] && q[k] == Prefix + Encode(images[k])
    requires dir !in d.faults && dir !in d.files
    requires forall k :: 1 <= k <= |images| ==> FilePath(dir, k) !in d.faults && FilePath(dir, k) !in d.dirs
    ensures forall j :: 0 <= j < |q| ==> Attempts(q, dir, Mkdirs(d, dir), recode)[j] == Saved(recode(images[j]))
  {
    forall j | 0 <= j < |q| ensures Attempts(q, dir, Mkdirs(d, dir), recode)[j] == Saved(recode(images[j])) {
      var path := FilePath(dir, j + 1);
      assert |path| > |dir|;
      WriteAfterMkdirs(d, dir, path);
      EncodedImageSaved(images[j], j + 1, dir, Mkdirs(d, dir), recode);
    }
  }
}
