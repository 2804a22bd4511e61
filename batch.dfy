/** What `start_conversion` (webp_converter.py:140-183) computes, stated as
    functions: the thickness rule shared with `preview_image`, the jobs it
    submits, the results it collects in completion order, the progress
    values it shows and the summary text. */
module Batch {
  import opened Text
  import opened Paths
  import opened Conversion

  // ---------------------------------------------------------------------
  // Frame thickness

  /** The thickness both `preview_image` and `start_conversion` use: 0 when
      the frame is off, whatever the entry says; otherwise the entry parsed
      as an integer, rejected (None) when it does not parse or is negative. */
  function ThicknessFor(addFrame: bool, text: string): (r: Option<nat>)
    ensures !addFrame ==> r == Some(0)
    ensures addFrame && r.Some? ==> ParseInt(text) == Some(r.value as int)
    ensures addFrame && r.None? ==> ParseInt(text).None? || ParseInt(text).value < 0
  {
    if !addFrame then Some(0)
    else match ParseInt(text)
      case None => None
      case Some(v) => if v < 0 then None else Some(v as nat)
  }

  /** With the frame on, every non-negative numeral is accepted, 0 included,
      and every negative one is refused. */
  lemma ThicknessNumerals(n: nat)
    ensures ThicknessFor(true, Decimal(n)) == Some(n)
    ensures n > 0 ==> ThicknessFor(true, "-" + Decimal(n)).None?
  {
    DecimalRoundTrip(n);
  }

  /** With the frame on, an entry with any character other than a digit
      after its optional sign ("abc", "12px") is refused; the empty entry is
      refused by `ParseInt` itself. */
  lemma ThicknessRejectsNonNumeral(text: string, k: nat)
    requires k < |text| && !IsDigit(text[k]) && !(k == 0 && IsSign(text[0]))
    ensures ThicknessFor(true, text).None?
  {
    if IsSign(text[0]) {
      assert !IsDigit(text[1..][k - 1]);
    }
  }

  // ---------------------------------------------------------------------
  // Submission and completion

  /** The jobs of the first loop: the file at 0-based position `i` is
      submitted with index `i + 1`, all with the same options. */
  function Submitted(files: seq<string>, dir: string, mode: RenameMode, prefix: Option<string>,
                     frame: bool, color: string, thickness: nat): (jobs: seq<Job>)
    ensures |jobs| == |files|
    ensures forall i :: 0 <= i < |files| ==> jobs[i].inputPath == files[i] && jobs[i].index == i + 1
    ensures forall i :: 0 <= i < |files| ==>
      jobs[i].outputDir == dir && jobs[i].mode == mode && jobs[i].prefix == prefix &&
      jobs[i].frame == frame && jobs[i].frameColor == color && jobs[i].thickness == thickness
  {
    seq(|files|, i requires 0 <= i < |files| => Job(files[i], dir, mode, prefix, i + 1, frame, color, thickness))
  }

  /** The positions 0, 1, ..., n - 1 in submission order. */
  function Range(n: nat): (r: seq<nat>)
    ensures |r| == n
    ensures forall i :: 0 <= i < n ==> r[i] == i
  {
    if n == 0 then [] else Range(n - 1) + [n - 1]
  }

  /** `as_completed` yields every submitted future exactly once, in some
      order: the completion order is a permutation of the positions. */
  predicate IsCompletionOrder(order: seq<nat>, n: nat) {
    |order| == n && (forall k :: 0 <= k < n ==> order[k] < n) &&
    multiset(order) == multiset(Range(n))
  }

  /** `xs` read in the order `order`. */
  function Reorder<T>(xs: seq<T>, order: seq<nat>): (r: seq<T>)
    requires forall k :: 0 <= k < |order| ==> order[k] < |xs|
    ensures |r| == |order|
    ensures forall k :: 0 <= k < |order| ==> r[k] == xs[order[k]]
  {
    seq(|order|, k requires 0 <= k < |order| => xs[order[k]])
  }

  /** Every job's result, in submission order. */
  function Outcomes(jobs: seq<Job>, imaging: Imaging): (rs: seq<ConversionResult>)
    ensures |rs| == |jobs|
    ensures forall i :: 0 <= i < |jobs| ==> rs[i] == ConvertImage(jobs[i], imaging)
  {
    seq(|jobs|, i requires 0 <= i < |jobs| => ConvertImage(jobs[i], imaging))
  }

  /** The results appended by the second loop: the k-th completion
      contributes the result of job `order[k]`. */
  function Collected(jobs: seq<Job>, order: seq<nat>, imaging: Imaging): (rs: seq<ConversionResult>)
    requires forall k :: 0 <= k < |order| ==> order[k] < |jobs|
    ensures |rs| == |order|
    ensures forall k :: 0 <= k < |order| ==> rs[k] == ConvertImage(jobs[order[k]], imaging)
  {
    Reorder(Outcomes(jobs, imaging), order)
  }

  /** The strings `convert_image` returns, one per result. */
  function Lines(rs: seq<ConversionResult>): (lines: seq<string>)
    ensures |lines| == |rs|
    ensures forall k :: 0 <= k < |rs| ==> lines[k] == Render(rs[k])
  {
    seq(|rs|, k requires 0 <= k < |rs| => Render(rs[k]))
  }

  /** The first `k` result lines, and for `k < |order|` how the next
      completion extends them. */
  lemma LinesStep(jobs: seq<Job>, order: seq<nat>, imaging: Imaging, k: nat)
    requires forall j :: 0 <= j < |order| ==> order[j] < |jobs|
    requires k <= |order|
    ensures k == |order| ==> Lines(Collected(jobs, order, imaging))[..k] == Lines(Collected(jobs, order, imaging))
    ensures k < |order| ==>
      Lines(Collected(jobs, order, imaging))[..k + 1] ==
      Lines(Collected(jobs, order, imaging))[..k] + [Render(ConvertImage(jobs[order[k]], imaging))]
  {
    var lines := Lines(Collected(jobs, order, imaging));
    if k < |order| {
      PrefixGrows(lines, k);
    }
  }

  /** Taking one more element of a sequence appends that element. */
  lemma PrefixGrows<T>(xs: seq<T>, k: nat)
    requires k < |xs|
    ensures xs[..k + 1] == xs[..k] + [xs[k]]
  {
  }

  lemma {:induction false} RangeCount(n: nat, v: nat)
    ensures multiset(Range(n))[v] == if v < n then 1 else 0
  {
    if n == 0 {
      assert Range(n) == [];
    } else {
      var last: nat := n - 1;
      RangeCount(last, v);
      assert Range(n) == Range(last) + [last];
      CountSnoc(Range(last), last, v);
    }
  }

  /** Appending `x` adds one occurrence of `x` and nothing else. */
  lemma CountSnoc<T>(s: seq<T>, x: T, v: T)
    ensures multiset(s + [x])[v] == multiset(s)[v] + if v == x then 1 else 0
  {
    assert multiset(s + [x]) == multiset(s) + multiset{x};
  }

  lemma {:induction false} TwiceCounted(s: seq<nat>, k: nat, k': nat)
    requires k < k' < |s| && s[k] == s[k']
    ensures multiset(s)[s[k]] >= 2
  {
    var v := s[k];
    assert s == s[..k'] + [s[k']] + s[k' + 1..];
    assert s[..k'] == s[..k] + [s[k]] + s[k + 1..k'];
    assert multiset(s[..k'])[v] >= 1;
  }

  /** In a completion order every job appears at exactly one place. */
  lemma CompletedOnce(order: seq<nat>, n: nat, i: nat)
    requires IsCompletionOrder(order, n) && i < n
    ensures multiset(order)[i] == 1
    ensures exists k :: 0 <= k < |order| && order[k] == i
    ensures forall k, k' :: 0 <= k < |order| && 0 <= k' < |order| && order[k] == i && order[k'] == i ==> k == k'
  {
    RangeCount(n, i);
    assert i in multiset(order);
    forall k, k' | 0 <= k < |order| && 0 <= k' < |order| && order[k] == i && order[k'] == i
      ensures k == k'
    {
      if k < k' { TwiceCounted(order, k, k'); }
      else if k' < k { TwiceCounted(order, k', k); }
    }
  }

  lemma ReorderAppend<T>(xs: seq<T>, a: seq<nat>, b: seq<nat>)
    requires forall k :: 0 <= k < |a| ==> a[k] < |xs|
    requires forall k :: 0 <= k < |b| ==> b[k] < |xs|
    ensures Reorder(xs, a + b) == Reorder(xs, a) + Reorder(xs, b)
  {
    var ab := a + b;
    assert forall k :: 0 <= k < |ab| ==> ab[k] < |xs| && (k < |a| ==> ab[k] == a[k]) && (k >= |a| ==> ab[k] == b[k - |a|]);
  }

  lemma RemoveAt<T>(ys: seq<T>, j: nat)
    requires j < |ys|
    ensures multiset(ys[..j] + ys[j + 1..]) == multiset(ys) - multiset{ys[j]}
  {
    assert ys == ys[..j] + [ys[j]] + ys[j + 1..];
  }

  lemma ReorderRemoveAt<T>(xs: seq<T>, ys: seq<nat>, j: nat)
    requires forall k :: 0 <= k < |ys| ==> ys[k] < |xs|
    requires j < |ys|
    ensures multiset(Reorder(xs, ys)) == multiset(Reorder(xs, ys[..j] + ys[j + 1..])) + multiset{xs[ys[j]]}
  {
    var before, x, after := ys[..j], [ys[j]], ys[j + 1..];
    assert ys == (before + x) + after;
    ReorderAppend(xs, before + x, after);
    ReorderAppend(xs, before, x);
    ReorderAppend(xs, before, after);
    assert Reorder(xs, x) == [xs[ys[j]]];
  }

  /** Reading a sequence in two orders that hold the same positions gives the
      same elements, up to order. */
  lemma {:induction false} ReorderPermutation<T>(xs: seq<T>, a: seq<nat>, b: seq<nat>)
    requires forall k :: 0 <= k < |a| ==> a[k] < |xs|
    requires forall k :: 0 <= k < |b| ==> b[k] < |xs|
    requires multiset(a) == multiset(b)
    ensures multiset(Reorder(xs, a)) == multiset(Reorder(xs, b))
  {
    if a == [] {
      assert |b| == |multiset(b)| == 0;
    } else {
      var last := |a| - 1;
      var x := a[last];
      assert x in multiset(b);
      var j :| 0 <= j < |b| && b[j] == x;
      RemoveAt(a, last);
      RemoveAt(b, j);
      assert a[..last] + a[last + 1..] == a[..last];
      ReorderPermutation(xs, a[..last], b[..j] + b[j + 1..]);
      ReorderRemoveAt(xs, a, last);
      ReorderRemoveAt(xs, b, j);
    }
  }

  /** The results, in completion order, are the submission-order results
      reordered: nothing lost, nothing duplicated. */
  lemma ResultsReordered(jobs: seq<Job>, order: seq<nat>, imaging: Imaging)
    requires IsCompletionOrder(order, |jobs|)
    ensures multiset(Collected(jobs, order, imaging)) == multiset(Outcomes(jobs, imaging))
  {
    var n := |jobs|;
    var xs := Outcomes(jobs, imaging);
    ReorderPermutation(xs, order, Range(n));
    assert Reorder(xs, Range(n)) == xs;
  }

  /** In "custom" mode the file at position `i` of the selection is reported
      exactly once, as written to `{prefix}_{i + 1}.webp` in the output
      directory or as a failure naming that file, whatever the completion
      order. */
  lemma CustomNameByPosition(files: seq<string>, dir: string, prefix: string, frame: bool, color: string,
                             thickness: nat, order: seq<nat>, imaging: Imaging, i: nat)
    requires IsCompletionOrder(order, |files|) && i < |files|
    ensures var rs := Collected(Submitted(files, dir, Custom, Some(prefix), frame, color, thickness), order, imaging);
      exists k :: 0 <= k < |rs| && order[k] == i &&
        (rs[k].Done? ==> rs[k].outputPath == JoinPath(dir, prefix + "_" + Decimal(i + 1) + ".webp")) &&
        (rs[k].Failed? ==> rs[k].inputPath == files[i])
  {
    var jobs := Submitted(files, dir, Custom, Some(prefix), frame, color, thickness);
    var rs := Collected(jobs, order, imaging);
    CompletedOnce(order, |files|, i);
    var k :| 0 <= k < |order| && order[k] == i;
    CustomNameRoundTrip(files[i], prefix, i + 1);
    assert rs[k] == ConvertImage(jobs[i], imaging);
  }

  /** In "custom" mode no two successful jobs of a batch write the same file. */
  lemma CustomOutputsDistinct(files: seq<string>, dir: string, prefix: string, frame: bool, color: string,
                              thickness: nat, order: seq<nat>, imaging: Imaging, k: nat, k': nat)
    requires IsCompletionOrder(order, |files|)
    requires k < |files| && k' < |files| && k != k'
    ensures var rs := Collected(Submitted(files, dir, Custom, Some(prefix), frame, color, thickness), order, imaging);
      rs[k].Done? && rs[k'].Done? ==> rs[k].outputPath != rs[k'].outputPath
  {
    var jobs := Submitted(files, dir, Custom, Some(prefix), frame, color, thickness);
    CompletedOnce(order, |files|, order[k]);
    CustomPathsDistinct(jobs[order[k]], jobs[order[k']]);
  }

  // ---------------------------------------------------------------------
  // Progress

  /** `(i / num_files) * 100` after the i-th completion, in exact arithmetic. */
  function Percent(i: nat, n: nat): (r: real)
    requires n > 0
    ensures r * n as real == i as real * 100.0
  {
    var q := i as real / n as real;
    assert q * n as real == i as real;
    q * 100.0
  }

  /** The values the progress bar shows, one per completion. */
  function ProgressTrace(n: nat): (trace: seq<real>)
    ensures |trace| == n
    ensures forall k :: 0 <= k < n ==> trace[k] == Percent(k + 1, n)
  {
    seq(n, k requires 0 <= k < n => Percent(k + 1, n))
  }

  /** The first `k` progress values, and for `k < n` how the next
      completion extends them. */
  lemma TraceStep(n: nat, k: nat)
    requires k <= n
    ensures k == n ==> ProgressTrace(n)[..k] == ProgressTrace(n)
    ensures k < n ==> ProgressTrace(n)[..k + 1] == ProgressTrace(n)[..k] + [Percent(k + 1, n)]
  {
    if k < n {
      PrefixGrows(ProgressTrace(n), k);
    }
  }

  lemma PercentMonotone(a: nat, b: nat, n: nat)
    requires a < b && n > 0
    ensures Percent(a, n) < Percent(b, n)
  {
    var N := n as real;
    assert a as real / N < b as real / N by {
      assert (b as real / N - a as real / N) * N == b as real - a as real;
    }
  }

  lemma PercentRange(i: nat, n: nat)
    requires 0 < i <= n
    ensures 0.0 < Percent(i, n) <= 100.0
    ensures i == n ==> Percent(i, n) == 100.0
  {
    PercentMonotone(0, i, n);
    if i < n { PercentMonotone(i, n, n); }
    var N := n as real;
    assert N / N == 1.0 by {
      assert N != 0.0;
      assert (N / N) * N == N;
    }
    assert Percent(n, n) == 100.0;
  }

  /** Progress strictly rises with every completion, stays within (0, 100]
      and reaches exactly 100 at the last one. */
  lemma ProgressRises(n: nat)
    requires n > 0
    ensures forall k, k' :: 0 <= k < k' < n ==> ProgressTrace(n)[k] < ProgressTrace(n)[k']
    ensures forall k :: 0 <= k < n ==> 0.0 < ProgressTrace(n)[k] <= 100.0
    ensures ProgressTrace(n)[n - 1] == 100.0
  {
    var t := ProgressTrace(n);
    forall k, k' | 0 <= k < k' < n ensures t[k] < t[k'] {
      PercentMonotone(k + 1, k' + 1, n);
    }
    forall k | 0 <= k < n ensures 0.0 < t[k] <= 100.0 {
      PercentRange(k + 1, n);
    }
    PercentRange(n, n);
  }

  /** Every value `start_conversion` writes to the progress bar: 0 before
      the first job, one value per completion, and 100 at the end. */
  function ProgressUpdates(n: nat): (updates: seq<real>)
    ensures |updates| == n + 2
    ensures updates[0] == 0.0 && updates[1..n + 1] == ProgressTrace(n) && updates[n + 1] == 100.0
  {
    [0.0] + ProgressTrace(n) + [100.0]
  }

  /** The progress bar never moves backwards and ends at 100. */
  lemma ProgressNeverFalls(n: nat)
    requires n > 0
    ensures forall a, b :: 0 <= a <= b < n + 2 ==> ProgressUpdates(n)[a] <= ProgressUpdates(n)[b]
    ensures ProgressUpdates(n)[n] == 100.0 && ProgressUpdates(n)[n + 1] == 100.0
  {
    var u := ProgressUpdates(n);
    var t := ProgressTrace(n);
    ProgressRises(n);
    assert forall k :: 1 <= k <= n ==> u[k] == t[k - 1];
    forall a, b | 0 <= a <= b < n + 2 ensures u[a] <= u[b] {
      if a == b {
      } else if a == 0 {
        assert b <= n ==> 0.0 < t[b - 1];
      } else if b == n + 1 {
        assert t[a - 1] <= 100.0;
      } else {
        assert t[a - 1] < t[b - 1];
      }
    }
  }

  // ---------------------------------------------------------------------
  // Summary

  const SummaryLimit: nat := 10
  const Omitted: string := "... (생략)"

  /** The completion message: the first ten result lines, one per line,
      followed by an omission line when there are more. */
  function Summary(lines: seq<string>): (text: string)
    ensures |lines| <= SummaryLimit ==> text == JoinWith('\n', lines)
    ensures |lines| > SummaryLimit ==>
      var tail := "\n" + Omitted;
      |text| >= |tail| && text[..|text| - |tail|] == JoinWith('\n', lines[..SummaryLimit]) && text[|text| - |tail|..] == tail
  {
    var shown := if |lines| <= SummaryLimit then lines else lines[..SummaryLimit];
    JoinWith('\n', shown) + (if |lines| > SummaryLimit then "\n" + Omitted else "")
  }

  lemma {:induction false} JoinSnoc(sep: char, xs: seq<string>, y: string)
    requires |xs| >= 1
    ensures JoinWith(sep, xs + [y]) == JoinWith(sep, xs) + [sep] + y
  {
    if |xs| > 1 {
      JoinSnoc(sep, xs[1..], y);
      assert (xs + [y])[1..] == xs[1..] + [y];
    }
  }

  /** Read line by line, the message is the first `min(10, n)` results, plus
      the omission line exactly when there are more than ten (result lines
      are assumed free of newlines). */
  lemma SummaryShows(lines: seq<string>)
    requires |lines| >= 1
    requires forall k :: 0 <= k < |lines| ==> '\n' !in lines[k]
    ensures |lines| <= SummaryLimit ==> SplitOn('\n', Summary(lines)) == lines
    ensures |lines| > SummaryLimit ==> SplitOn('\n', Summary(lines)) == lines[..SummaryLimit] + [Omitted]
  {
    if |lines| <= SummaryLimit {
      assert Summary(lines) == JoinWith('\n', lines);
      SplitJoin('\n', lines);
    } else {
      var shown := lines[..SummaryLimit];
      JoinSnoc('\n', shown, Omitted);
      assert Summary(lines) == JoinWith('\n', shown + [Omitted]);
      assert '\n' !in Omitted;
      SplitJoin('\n', shown + [Omitted]);
    }
  }
}
