/**
 Removing `.` and `..` segments from a URI path: the algorithm of section 5.2.4 of
 RFC 3986 on an input and an output buffer, and the in-place rewriting of `GenericUri`.
 */
module DotSegments {
  import opened Bytes

  /** The position of the first solidus from `i` on, or the end. */
  function NextSlash(p: bytes, i: nat): (j: nat)
    requires i <= |p|
    ensures i <= j <= |p| && (j < |p| ==> p[j] == SLASH)
    ensures forall k :: i <= k < j ==> p[k] != SLASH
    decreases |p| - i
  {
    if i == |p| || p[i] == SLASH then i else NextSlash(p, i + 1)
  }

  // ---------- the standard ----------

  predicate StartsWith(p: bytes, q: bytes) {
    |q| <= |p| && forall k :: 0 <= k < |q| ==> p[k] == q[k]
  }

  /** The output buffer without its last segment and the solidus before it. */
  function WithoutLast(output: bytes): (r: bytes)
    ensures |r| <= |output| && r == output[..|r|]
  {
    if output == [] then []
    else
      var n := |output| - 1;
      if output[n] == SLASH then output[..n] else WithoutLast(output[..n])
  }

  /** Steps 2A to 2E of section 5.2.4. */
  function Standard(input: bytes, output: bytes): bytes
    decreases |input|
  {
    if input == [] then output
    else if StartsWith(input, [DOT, DOT, SLASH]) then Standard(input[3..], output)
    else if StartsWith(input, [DOT, SLASH]) then Standard(input[2..], output)
    else if StartsWith(input, [SLASH, DOT, SLASH]) then Standard(input[2..], output)
    else if input == [SLASH, DOT] then Standard([SLASH], output)
    else if StartsWith(input, [SLASH, DOT, DOT, SLASH]) then Standard(input[3..], WithoutLast(output))
    else if input == [SLASH, DOT, DOT] then Standard([SLASH], WithoutLast(output))
    else if input == [DOT] || input == [DOT, DOT] then output
    else
      var n := NextSlash(input, 1);
      Standard(input[n..], output + input[..n])
  }

  // ---------- the rewriting ----------

  /** Where the new path ends after backing up over its last segment. */
  function BackedUp(out: bytes): (n: nat)
    ensures n <= |out| && (n > 0 && |out| > 1 ==> out[n - 1] == SLASH)
  {
    if |out| <= 1 then |out| else AfterLastSlash(out, |out| - 1)
  }

  function AfterLastSlash(out: bytes, n: nat): (m: nat)
    requires n <= |out|
    ensures m <= n && (m > 0 ==> out[m - 1] == SLASH)
    ensures forall k :: m <= k < n ==> out[k] != SLASH
  {
    if n == 0 || out[n - 1] == SLASH then n else AfterLastSlash(out, n - 1)
  }

  /** The new path after one segment, `last` telling that no solidus follows it. */
  function AddSegment(out: bytes, segment: bytes, last: bool): bytes {
    if segment == [DOT, DOT] then out[..BackedUp(out)]
    else if segment == [DOT] then out
    else out + segment + (if last then [] else [SLASH])
  }

  /** The new path, from the part built so far and the path from position `i` on. */
  function Rewrite(path: bytes, i: nat, out: bytes): bytes
    decreases |path| + 1 - i
  {
    if i >= |path| then out
    else
      var j := NextSlash(path, i);
      Rewrite(path, j + 1, AddSegment(out, path[i..j], j == |path|))
  }

  function Removed(path: bytes): bytes {
    Rewrite(path, 0, [])
  }

  // ---------- agreement with the standard ----------

  /**
   Where a walk over the segments stands. `Start`: only dot segments so far. `Absolute`: the
   new path begins with the solidus it should begin with. `Relative`: it consists of `depth`
   segments, and began without a solidus. `Ahead`: a `..` has taken the last segment of a
   relative path, and the standard keeps the solidus behind that segment, which the rewriting
   drops; `hollow` tells that the first of the `depth` segments since then is empty.
   */
  datatype Walk = Start | Absolute | Relative(depth: nat) | Ahead(depth: nat, hollow: bool)

  function WalkSegment(w: Walk, segment: bytes): Walk {
    var up := segment == [DOT, DOT];
    if segment == [DOT] || w.Absolute? || (up && w.Start?) then w
    else match w {
      case Relative(depth) =>
        if !up then Relative(depth + 1) else if depth <= 1 then Ahead(0, false) else Relative(depth - 1)
      case Ahead(depth, hollow) =>
        if !up then Ahead(depth + 1, if depth == 0 then segment == [] else hollow)
        else if depth == 0 then w
        else if depth > 1 then Ahead(depth - 1, hollow)
        else if hollow then Absolute else Ahead(0, false)
      case _ => if segment == [] then Absolute else Relative(1)
    }
  }

  function WalkFrom(path: bytes, i: nat, w: Walk): Walk
    decreases |path| + 1 - i
  {
    if i >= |path| then w
    else
      var j := NextSlash(path, i);
      WalkFrom(path, j + 1, WalkSegment(w, path[i..j]))
  }

  /** The rewriting keeps in step with the standard: the walk does not end where the standard is a solidus ahead. */
  predicate InStep(path: bytes) {
    !WalkFrom(path, 0, Start).Ahead?
  }

  function Slashes(s: bytes): nat {
    if s == [] then 0 else Slashes(s[..|s| - 1]) + if s[|s| - 1] == SLASH then 1 else 0
  }

  /** What the walk knows about the new path, between two segments. */
  predicate Matches(w: Walk, out: bytes) {
    match w
    case Start => out == []
    case Absolute => out != [] && out[0] == SLASH && out[|out| - 1] == SLASH
    case Relative(depth) => out != [] && out[0] != SLASH && out[|out| - 1] == SLASH && Slashes(out) == depth
    case Ahead(depth, hollow) =>
      && Slashes(out) == depth
      && (if depth == 0 then out == [] else out != [] && out[|out| - 1] == SLASH && (hollow <==> out[0] == SLASH))
  }

  /** The path the standard has built: the new path, with the solidus that the rewriting has lost. */
  function Ideal(w: Walk, out: bytes): bytes {
    if w.Ahead? then [SLASH] + out else out
  }

  /** What the standard makes of one segment, on a path that ends with a solidus. */
  function IdealSegment(path: bytes, segment: bytes, last: bool): bytes
    requires path != []
  {
    if segment == [DOT, DOT] then WithoutLast(path[..|path| - 1]) + [SLASH]
    else if segment == [DOT] then path
    else path + segment + (if last then [] else [SLASH])
  }

  lemma {:induction false} WithoutLastIs(output: bytes)
    ensures var n := AfterLastSlash(output, |output|);
            WithoutLast(output) == if n == 0 then [] else output[..n - 1]
    decreases |output|
  {
    if output != [] && output[|output| - 1] != SLASH {
      var n := |output| - 1;
      WithoutLastIs(output[..n]);
      LastSlashOfPrefix(output, n);
      var m := AfterLastSlash(output, n);
      assert m > 0 ==> output[..n][..m - 1] == output[..m - 1];
    }
  }

  lemma {:induction false} LastSlashOfPrefix(out: bytes, n: nat)
    requires n <= |out|
    ensures AfterLastSlash(out[..n], n) == AfterLastSlash(out, n)
    decreases n
  {
    if n > 0 && out[n - 1] != SLASH {
      assert out[..n][..n - 1] == out[..n - 1];
      LastSlashOfPrefix(out, n - 1);
      LastSlashOfPrefix(out[..n], n - 1);
    }
  }

  lemma {:induction false} AfterLastSlashIs(out: bytes, n: nat, m: nat)
    requires m <= n <= |out| && (m == 0 || out[m - 1] == SLASH)
    requires forall k :: m <= k < n ==> out[k] != SLASH
    ensures AfterLastSlash(out, n) == m
    decreases n - m
  {
    if m < n {
      AfterLastSlashIs(out, n - 1, m);
    }
  }

  lemma Shortened(output: bytes)
    ensures var n := AfterLastSlash(output, |output|);
            WithoutLast(output) + [SLASH] == if n == 0 then [SLASH] else output[..n - 1] + [SLASH]
  {
    hide AfterLastSlash, WithoutLast;
    WithoutLastIs(output);
    assert [] + [SLASH] == [SLASH];
  }

  /** Backing up removes what the standard removes, but for the solidus before the first segment. */
  lemma BackedUpIsIdeal(out: bytes)
    requires |out| > 1 && out[|out| - 1] == SLASH
    ensures var n := AfterLastSlash(out, |out| - 1);
            n < |out| && IdealSegment(out, [DOT, DOT], false) == (if n == 0 then [SLASH] else out[..n])
  {
    hide AfterLastSlash, WithoutLast;
    var init, n := out[..|out| - 1], AfterLastSlash(out, |out| - 1);
    LastSlashOfPrefix(out, |out| - 1);
    Shortened(init);
    if n > 0 {
      Kept(out, n);
    }
  }

  lemma Kept(out: bytes, n: nat)
    requires 0 < n < |out| && out[n - 1] == SLASH
    ensures out[..|out| - 1][..n - 1] + [SLASH] == out[..n]
  {
  }

  /** With a solidus in front there is nothing to lose. */
  lemma BackedUpAhead(out: bytes)
    requires |out| > 1 && out[|out| - 1] == SLASH
    ensures IdealSegment([SLASH] + out, [DOT, DOT], false) == [SLASH] + out[..AfterLastSlash(out, |out| - 1)]
  {
    hide AfterLastSlash, WithoutLast;
    var init, n := out[..|out| - 1], AfterLastSlash(out, |out| - 1);
    LastSlashOfPrefix(out, |out| - 1);
    LastSlashAhead(init);
    Shortened([SLASH] + init);
    InitAhead(out);
    Regrouped(out, n);
  }

  lemma InitAhead(out: bytes)
    requires out != []
    ensures ([SLASH] + out)[..|[SLASH] + out| - 1] == [SLASH] + out[..|out| - 1]
  {
  }

  lemma Regrouped(out: bytes, n: nat)
    requires |out| > 1 && n < |out| && (n > 0 ==> out[n - 1] == SLASH)
    ensures ([SLASH] + out[..|out| - 1])[..n] + [SLASH] == [SLASH] + out[..n]
  {
    var left, right := ([SLASH] + out[..|out| - 1])[..n] + [SLASH], [SLASH] + out[..n];
    assert |left| == |right| == n + 1;
    assert forall k :: 0 < k < n ==> left[k] == out[k - 1] && right[k] == out[k - 1];
  }

  lemma LastSlashAhead(init: bytes)
    ensures AfterLastSlash([SLASH] + init, |init| + 1) == AfterLastSlash(init, |init|) + 1
  {
    hide AfterLastSlash;
    var n, ahead := AfterLastSlash(init, |init|), [SLASH] + init;
    assert |ahead| == |init| + 1 && ahead[0] == SLASH;
    assert forall k :: 0 < k < |ahead| ==> ahead[k] == init[k - 1];
    AfterLastSlashIs(ahead, |ahead|, n + 1);
  }

  lemma {:induction false} SlashesBefore(s: bytes, n: nat)
    requires n <= |s| && forall k :: n <= k < |s| ==> s[k] != SLASH
    ensures Slashes(s) == Slashes(s[..n])
    decreases |s|
  {
    if n < |s| {
      var init := s[..|s| - 1];
      SlashesBefore(init, n);
      assert init[..n] == s[..n];
    } else {
      assert s[..n] == s;
    }
  }

  lemma {:induction false} FirstSlashCounts(s: bytes)
    requires s != [] && s[0] == SLASH
    ensures Slashes(s) > 0
    decreases |s|
  {
    if |s| > 1 {
      FirstSlashCounts(s[..|s| - 1]);
    }
  }

  /** Backing up takes one solidus away. */
  lemma BackedUpCounts(out: bytes)
    requires |out| > 1 && out[|out| - 1] == SLASH
    ensures var n := AfterLastSlash(out, |out| - 1);
            && Slashes(out) == Slashes(out[..n]) + 1
            && (n > 0 ==> Slashes(out[..n]) > 0)
            && (out[0] == SLASH ==> n > 0 && Slashes(out) > 1)
  {
    hide AfterLastSlash;
    var init, n := out[..|out| - 1], AfterLastSlash(out, |out| - 1);
    assert init[..n] == out[..n];
    SlashesBefore(init, n);
    if out[0] == SLASH {
      FirstSlashCounts(init);
    }
  }

  /** Going up, the walk says what becomes of the solidus. */
  lemma UpKeepsMatch(w: Walk, out: bytes)
    requires !w.Start? && Matches(w, out)
    ensures Matches(WalkSegment(w, [DOT, DOT]), out[..BackedUp(out)])
    ensures Ideal(WalkSegment(w, [DOT, DOT]), out[..BackedUp(out)]) == IdealSegment(Ideal(w, out), [DOT, DOT], false)
  {
    hide AfterLastSlash;
    if |out| > 1 {
      BackedUpIsIdeal(out);
      BackedUpAhead(out);
      BackedUpCounts(out);
    } else {
      hide WithoutLast;
      UpFromShort(w, out);
    }
  }

  lemma UpFromShort(w: Walk, out: bytes)
    requires !w.Start? && Matches(w, out) && |out| <= 1
    ensures Matches(WalkSegment(w, [DOT, DOT]), out)
    ensures Ideal(WalkSegment(w, [DOT, DOT]), out) == IdealSegment(Ideal(w, out), [DOT, DOT], false)
  {
    assert Slashes([SLASH]) == 1 by {
      assert [SLASH][..0] == [];
    }
    assert [SLASH][..0] == [] && [SLASH, SLASH][..1] == [SLASH];
    if out != [] {
      assert out == [SLASH];
      assert [SLASH] + [SLASH] == [SLASH, SLASH];
    }
  }

  lemma SlashesGrow(out: bytes, segment: bytes)
    requires SLASH !in segment
    ensures Slashes(out + segment + [SLASH]) == Slashes(out) + 1
  {
    var next := out + segment;
    assert (next + [SLASH])[..|next|] == next;
    SlashesBefore(next, |out|);
    assert next[..|out|] == out;
  }

  /** One segment: what the standard has built stays the new path, with the solidus the walk speaks of. */
  lemma SegmentKeepsMatch(w: Walk, out: bytes, segment: bytes, last: bool)
    requires !w.Start? && Matches(w, out) && SLASH !in segment
    ensures var next := AddSegment(out, segment, last);
            && Ideal(WalkSegment(w, segment), next) == IdealSegment(Ideal(w, out), segment, last)
            && (!last ==> Matches(WalkSegment(w, segment), next))
  {
    hide BackedUp, WithoutLast, Slashes;
    if segment == [DOT, DOT] {
      UpKeepsMatch(w, out);
    } else if segment != [DOT] {
      SlashesGrow(out, segment);
      assert [SLASH] + (out + segment) == ([SLASH] + out) + segment;
      assert [SLASH] + (out + segment + [SLASH]) == ([SLASH] + out) + segment + [SLASH];
    }
  }

  lemma {:induction false} NextSlashIs(p: bytes, i: nat, j: nat)
    requires i <= j <= |p| && (j < |p| ==> p[j] == SLASH)
    requires forall k :: i <= k < j ==> p[k] != SLASH
    ensures NextSlash(p, i) == j
    decreases j - i
  {
    if i < j {
      NextSlashIs(p, i + 1, j);
    }
  }

  lemma NextSlashShift(path: bytes, i: nat, input: bytes)
    requires i <= |path| && input == [SLASH] + path[i..]
    ensures NextSlash(input, 1) == NextSlash(path, i) - i + 1
  {
    hide NextSlash;
    var j := NextSlash(path, i);
    assert forall k :: 1 <= k < |input| ==> input[k] == path[k + i - 1];
    NextSlashIs(input, 1, j - i + 1);
  }

  /** The standard's input buffer when position `i` of the path has been reached: a solidus and the rest. */
  function Rest(path: bytes, i: nat): bytes
    requires i <= |path|
  {
    [SLASH] + path[i..]
  }

  /** The standard's next steps do one segment, whatever has been built. */
  lemma StandardSegment(path: bytes, i: nat, ideal: bytes)
    requires i < |path| && ideal != [] && ideal[|ideal| - 1] == SLASH
    ensures var j := NextSlash(path, i);
            var next := IdealSegment(ideal, path[i..j], j == |path|);
            if j < |path| then
              && next != []
              && Standard(Rest(path, i), ideal[..|ideal| - 1]) == Standard(Rest(path, j + 1), next[..|next| - 1])
            else Standard(Rest(path, i), ideal[..|ideal| - 1]) == next
  {
    hide NextSlash, WithoutLast, Standard, IdealSegment;
    var j := NextSlash(path, i);
    var segment, tail := path[i..j], path[j..];
    NextSlashShift(path, i, Rest(path, i));
    assert Rest(path, i) == [SLASH] + segment + tail;
    assert j < |path| ==> tail == Rest(path, j + 1);
    StepOnBuffers(Rest(path, i), ideal, segment, tail);
  }

  /** The same on the buffers themselves. */
  lemma StepOnBuffers(input: bytes, ideal: bytes, segment: bytes, tail: bytes)
    requires ideal != [] && ideal[|ideal| - 1] == SLASH && SLASH !in segment && (tail == [] || tail[0] == SLASH)
    requires input == [SLASH] + segment + tail && NextSlash(input, 1) == 1 + |segment|
    ensures var next := IdealSegment(ideal, segment, tail == []);
            if tail != [] then next != [] && Standard(input, ideal[..|ideal| - 1]) == Standard(tail, next[..|next| - 1])
            else Standard(input, ideal[..|ideal| - 1]) == next
  {
    hide NextSlash, WithoutLast, Standard;
    var output := ideal[..|ideal| - 1];
    assert output + [SLASH] == ideal;
    if segment == [DOT, DOT] {
      var kept := WithoutLast(output);
      assert (kept + [SLASH])[..|kept|] == kept;
      assert input == [SLASH, DOT, DOT] + tail;
      DotDotStep(input, output, tail);
      JustSlash(kept);
    } else if segment == [DOT] {
      assert input == [SLASH, DOT] + tail;
      DotStep(input, output, tail);
      JustSlash(output);
    } else {
      OtherStep(input, output, segment, tail);
      assert output + ([SLASH] + segment) == ideal + segment;
      if tail == [] {
        NothingLeft(ideal + segment);
        assert ideal + segment + [] == ideal + segment;
      } else {
        assert (ideal + segment + [SLASH])[..|ideal + segment|] == ideal + segment;
      }
    }
  }

  lemma NothingLeft(output: bytes)
    ensures Standard([], output) == output
  {
  }

  lemma JustSlash(output: bytes)
    ensures Standard([SLASH], output) == output + [SLASH]
  {
    hide WithoutLast;
    assert NextSlash([SLASH], 1) == 1;
    assert [SLASH][..1] == [SLASH] && [SLASH][1..] == [];
    assert Standard([], output + [SLASH]) == output + [SLASH];
  }

  lemma DotStep(input: bytes, output: bytes, tail: bytes)
    requires input == [SLASH, DOT] + tail && (tail == [] || tail[0] == SLASH)
    ensures Standard(input, output) == Standard(if tail == [] then [SLASH] else tail, output)
  {
    hide WithoutLast, NextSlash;
    assert input[0] == SLASH && input[1] == DOT;
    if tail == [] {
      assert input == [SLASH, DOT];
    } else {
      assert input[..3] == [SLASH, DOT, SLASH];
      assert input[2..] == tail;
    }
  }

  lemma DotDotStep(input: bytes, output: bytes, tail: bytes)
    requires input == [SLASH, DOT, DOT] + tail && (tail == [] || tail[0] == SLASH)
    ensures Standard(input, output) == Standard(if tail == [] then [SLASH] else tail, WithoutLast(output))
  {
    hide WithoutLast, NextSlash;
    assert input[0] == SLASH && input[1] == DOT && input[2] == DOT;
    if tail == [] {
      assert input == [SLASH, DOT, DOT];
    } else {
      assert input[..4] == [SLASH, DOT, DOT, SLASH];
      assert input[3..] == tail;
    }
  }

  lemma OtherStep(input: bytes, output: bytes, segment: bytes, tail: bytes)
    requires input == [SLASH] + segment + tail && (tail == [] || tail[0] == SLASH)
    requires segment != [DOT] && segment != [DOT, DOT] && SLASH !in segment
    requires NextSlash(input, 1) == 1 + |segment|
    ensures Standard(input, output) == Standard(tail, output + ([SLASH] + segment))
  {
    hide WithoutLast, NextSlash, StartsWith;
    var n := 1 + |segment|;
    assert input[..n] == [SLASH] + segment && input[n..] == tail;
    StartsMean(input, segment, tail);
  }

  /** What the standard's tests say about the first segment after the solidus. */
  lemma StartsMean(input: bytes, segment: bytes, tail: bytes)
    requires input == [SLASH] + segment + tail && (tail == [] || tail[0] == SLASH) && SLASH !in segment
    ensures StartsWith(input, [SLASH, DOT, SLASH]) || input == [SLASH, DOT] ==> segment == [DOT]
    ensures StartsWith(input, [SLASH, DOT, DOT, SLASH]) || input == [SLASH, DOT, DOT] ==> segment == [DOT, DOT]
    ensures !StartsWith(input, [DOT, DOT, SLASH]) && !StartsWith(input, [DOT, SLASH])
    ensures input != [] && input != [DOT] && input != [DOT, DOT]
  {
    assert input[0] == SLASH;
    assert forall k :: 0 <= k < |segment| ==> input[1 + k] == segment[k] && segment[k] != SLASH;
    assert tail != [] ==> input[1 + |segment|] == SLASH;
    assert |input| == 1 + |segment| + |tail|;
    Prefixes(input);
  }

  lemma Prefixes(p: bytes)
    ensures StartsWith(p, [SLASH, DOT, SLASH]) ==> |p| >= 3 && p[1] == DOT && p[2] == SLASH
    ensures StartsWith(p, [SLASH, DOT, DOT, SLASH]) ==> |p| >= 4 && p[1] == DOT && p[2] == DOT && p[3] == SLASH
    ensures StartsWith(p, [DOT, DOT, SLASH]) ==> |p| >= 3 && p[0] == DOT && p[1] == DOT && p[2] == SLASH
    ensures StartsWith(p, [DOT, SLASH]) ==> |p| >= 2 && p[0] == DOT && p[1] == SLASH
    ensures StartsWith(p, [SLASH, DOT, SLASH]) || StartsWith(p, [SLASH, DOT, DOT, SLASH]) ==> p[0] == SLASH
  {
    var a: bytes, b: bytes, c: bytes, d: bytes :=
      [SLASH, DOT, SLASH], [SLASH, DOT, DOT, SLASH], [DOT, DOT, SLASH], [DOT, SLASH];
    assert a[0] == SLASH && a[1] == DOT && a[2] == SLASH && b[0] == SLASH && b[1] == DOT && b[2] == DOT
      && b[3] == SLASH;
    assert c[0] == DOT && c[1] == DOT && c[2] == SLASH && d[0] == DOT && d[1] == SLASH;
  }

  /**
   Behind the dot segments at the start the standard is where the rewriting is, up to the solidus the
   walk speaks of.
   */
  lemma {:induction false} RewriteIsIdeal(path: bytes, i: nat, w: Walk, out: bytes)
    requires i <= |path| && !w.Start? && Matches(w, out)
    ensures Ideal(w, out) != []
    ensures var ideal := Ideal(w, out);
            Standard(Rest(path, i), ideal[..|ideal| - 1]) == Ideal(WalkFrom(path, i, w), Rewrite(path, i, out))
    decreases |path| - i
  {
    hide NextSlash, Standard, AddSegment, WalkSegment, IdealSegment, Slashes;
    var ideal := Ideal(w, out);
    assert ideal != [] && ideal[|ideal| - 1] == SLASH;
    if i == |path| {
      JustSlash(ideal[..|ideal| - 1]);
      assert Rest(path, i) == [SLASH];
      assert ideal[..|ideal| - 1] + [SLASH] == ideal;
    } else {
      StandardSegment(path, i, ideal);
      var j := NextSlash(path, i);
      var next := AddSegment(out, path[i..j], j == |path|);
      SegmentKeepsMatch(w, out, path[i..j], j == |path|);
      NeverStartsAgain(w, path[i..j]);
      if j < |path| {
        RewriteIsIdeal(path, j + 1, WalkSegment(w, path[i..j]), next);
      } else {
        assert WalkFrom(path, j + 1, WalkSegment(w, path[i..j])) == WalkSegment(w, path[i..j]);
        assert Rewrite(path, j + 1, next) == next;
      }
    }
  }

  lemma NeverStartsAgain(w: Walk, segment: bytes)
    requires !w.Start?
    ensures !WalkSegment(w, segment).Start?
  {
  }

  /** The standard drops dot segments at the start of its input without touching the output. */
  lemma LeadingDots(path: bytes, i: nat, j: nat)
    requires i < |path| && i <= j <= |path| && (j < |path| ==> path[j] == SLASH)
    requires path[i..j] == [DOT] || path[i..j] == [DOT, DOT]
    ensures Standard(path[i..], []) == if j < |path| then Standard(path[j + 1..], []) else []
  {
    hide NextSlash, WithoutLast;
    var input, segment := path[i..], path[i..j];
    assert input == segment + path[j..];
    if j < |path| {
      assert input[|segment|] == SLASH && input[|segment| + 1..] == path[j + 1..];
      assert input[0] == DOT && segment == [DOT, DOT] ==> input[1] == DOT;
      StartsWithSegment(input, segment);
    } else {
      assert input == segment;
      Prefixes(input);
    }
  }

  lemma StartsWithSegment(input: bytes, segment: bytes)
    requires segment == [DOT] || segment == [DOT, DOT]
    requires |segment| < |input| && input[..|segment|] == segment && input[|segment|] == SLASH
    ensures StartsWith(input, [DOT, DOT, SLASH]) <==> segment == [DOT, DOT]
    ensures StartsWith(input, [DOT, SLASH]) <==> segment == [DOT]
  {
    var a: bytes, b: bytes := [DOT, DOT, SLASH], [DOT, SLASH];
    assert input[0] == segment[0];
    if segment == [DOT, DOT] {
      assert input[1] == segment[1];
      assert a[0] == DOT && a[1] == DOT && a[2] == SLASH && b[1] == SLASH;
    } else {
      assert a[1] == DOT && b[0] == DOT && b[1] == SLASH;
    }
  }

  /** The standard moves a first segment that is not empty to the output, as it stands. */
  lemma FirstSegment(input: bytes, segment: bytes, tail: bytes)
    requires input == segment + tail && segment != [] && SLASH !in segment && (tail == [] || tail[0] == SLASH)
    requires segment != [DOT] && segment != [DOT, DOT]
    ensures Standard(input, []) == Standard(tail, segment)
  {
    hide WithoutLast, NextSlash;
    assert forall k :: 0 <= k < |segment| ==> input[k] == segment[k];
    assert tail != [] ==> input[|segment|] == SLASH;
    NextSlashIs(input, 1, |segment|);
    assert input[..|segment|] == segment && input[|segment|..] == tail && [] + segment == segment;
    NoPrefix(input, segment, tail);
  }

  lemma NoPrefix(input: bytes, segment: bytes, tail: bytes)
    requires input == segment + tail && segment != [] && SLASH !in segment && (tail == [] || tail[0] == SLASH)
    requires segment != [DOT] && segment != [DOT, DOT]
    ensures !StartsWith(input, [DOT, DOT, SLASH]) && !StartsWith(input, [DOT, SLASH])
    ensures !StartsWith(input, [SLASH, DOT, SLASH]) && !StartsWith(input, [SLASH, DOT, DOT, SLASH])
    ensures input[0] != SLASH && input != [DOT] && input != [DOT, DOT]
  {
    assert forall k :: 0 <= k < |segment| ==> input[k] == segment[k] && segment[k] != SLASH;
    assert |segment| == 1 ==> segment == [input[0]];
    assert |segment| == 2 ==> segment == [input[0], input[1]];
    assert tail == [] ==> input == segment;
    Prefixes(input);
    assert |input| <= 2 || input[2] != SLASH || |segment| <= 2;
    assert |input| <= 1 || input[1] != SLASH || |segment| <= 1;
  }

  /** One round of the walk and of the rewriting. */
  lemma WalkUnfold(path: bytes, i: nat, w: Walk, out: bytes)
    requires i < |path|
    ensures var j := NextSlash(path, i);
            var next, after := AddSegment(out, path[i..j], j == |path|), WalkSegment(w, path[i..j]);
            && Rewrite(path, i, out) == Rewrite(path, j + 1, next)
            && WalkFrom(path, i, w) == WalkFrom(path, j + 1, after)
            && (j == |path| ==> Rewrite(path, i, out) == next && WalkFrom(path, i, w) == after)
  {
    hide NextSlash, AddSegment, WalkSegment;
  }

  /** From the start: dot segments are dropped, and the first other segment decides what kind of path it is. */
  lemma {:induction false} StartIsIdeal(path: bytes, i: nat)
    requires i <= |path|
    ensures Standard(path[i..], []) == Ideal(WalkFrom(path, i, Start), Rewrite(path, i, []))
    decreases |path| - i
  {
    hide NextSlash, Standard, Rewrite, WalkFrom, Ideal;
    if i == |path| {
      NothingToRead(path);
    } else {
      var j := NextSlash(path, i);
      if path[i..j] == [DOT] || path[i..j] == [DOT, DOT] {
        DotsDropped(path, i, j);
        if j < |path| {
          StartIsIdeal(path, j + 1);
        }
      } else {
        FirstSegmentIsIdeal(path, i, j);
      }
    }
  }

  lemma NothingToRead(path: bytes)
    ensures Standard(path[|path|..], []) == Ideal(WalkFrom(path, |path|, Start), Rewrite(path, |path|, []))
  {
    hide Standard;
    assert path[|path|..] == [];
    NothingLeft([]);
  }

  lemma DotsDropped(path: bytes, i: nat, j: nat)
    requires i < |path| && j == NextSlash(path, i) && (path[i..j] == [DOT] || path[i..j] == [DOT, DOT])
    ensures j < |path| ==>
              && Standard(path[i..], []) == Standard(path[j + 1..], [])
              && WalkFrom(path, i, Start) == WalkFrom(path, j + 1, Start)
              && Rewrite(path, i, []) == Rewrite(path, j + 1, [])
    ensures j == |path| ==> Standard(path[i..], []) == Ideal(WalkFrom(path, i, Start), Rewrite(path, i, []))
  {
    hide NextSlash, Standard, Rewrite, WalkFrom, AddSegment, WalkSegment;
    WalkUnfold(path, i, Start, []);
    LeadingDots(path, i, j);
    StartStays(path[i..j], j == |path|);
  }

  lemma StartStays(segment: bytes, last: bool)
    requires segment == [DOT] || segment == [DOT, DOT]
    ensures WalkSegment(Start, segment) == Start && AddSegment([], segment, last) == []
  {
  }

  lemma FirstSegmentIsIdeal(path: bytes, i: nat, j: nat)
    requires i < |path| && j == NextSlash(path, i) && path[i..j] != [DOT] && path[i..j] != [DOT, DOT]
    ensures Standard(path[i..], []) == Ideal(WalkFrom(path, i, Start), Rewrite(path, i, []))
  {
    hide NextSlash, Standard, Rewrite, WalkFrom, AddSegment, WalkSegment, Ideal, Rest;
    WalkUnfold(path, i, Start, []);
    FirstSegmentMoves(path, i, j);
    FirstAdded(path[i..j]);
    if j == |path| {
      NothingLeft(path[i..j]);
      FirstIsLast(path[i..j]);
    } else {
      BehindFirst(path, j, path[i..j]);
    }
  }

  lemma FirstIsLast(segment: bytes)
    requires segment != [DOT] && segment != [DOT, DOT]
    ensures Ideal(WalkSegment(Start, segment), segment) == segment
  {
  }

  lemma BehindFirst(path: bytes, j: nat, segment: bytes)
    requires j < |path| && SLASH !in segment && segment != [DOT] && segment != [DOT, DOT]
    ensures var w := WalkSegment(Start, segment);
            Standard(Rest(path, j + 1), segment)
            == Ideal(WalkFrom(path, j + 1, w), Rewrite(path, j + 1, segment + [SLASH]))
  {
    hide Standard, Rewrite, WalkFrom, Matches, Rest;
    FirstMatches(segment);
    Snoc(segment);
    RewriteIsIdeal(path, j + 1, WalkSegment(Start, segment), segment + [SLASH]);
  }

  lemma FirstAdded(segment: bytes)
    requires segment != [DOT] && segment != [DOT, DOT]
    ensures AddSegment([], segment, true) == segment && AddSegment([], segment, false) == segment + [SLASH]
  {
    assert [] + segment == segment && segment + [] == segment;
  }

  lemma FirstSegmentMoves(path: bytes, i: nat, j: nat)
    requires i < |path| && j == NextSlash(path, i) && path[i..j] != [DOT] && path[i..j] != [DOT, DOT]
    ensures Standard(path[i..], []) == Standard(if j == |path| then [] else Rest(path, j + 1), path[i..j])
  {
    hide NextSlash, Standard;
    Parts(path, i, j);
    if path[i..j] != [] {
      FirstSegment(path[i..], path[i..j], path[j..]);
    }
  }

  lemma Parts(path: bytes, i: nat, j: nat)
    requires i <= j <= |path| && (j < |path| ==> path[j] == SLASH)
    ensures path[i..] == path[i..j] + path[j..] && (path[i..j] == [] ==> path[i..] == path[j..])
    ensures path[j..] == if j == |path| then [] else Rest(path, j + 1)
  {
  }

  lemma Snoc(segment: bytes)
    ensures (segment + [SLASH])[..|segment|] == segment && |segment + [SLASH]| == |segment| + 1
  {
  }

  lemma FirstMatches(segment: bytes)
    requires SLASH !in segment && segment != [DOT] && segment != [DOT, DOT]
    ensures Matches(WalkSegment(Start, segment), segment + [SLASH])
  {
    SlashesGrow([], segment);
    assert [] + segment + [SLASH] == segment + [SLASH];
  }

  /**
   Main result: on every path the rewriting gives what the standard prescribes, but for the
   solidus at the front where the walk ends ahead; so the two agree exactly on the paths in step.
   */
  lemma RemovedOrAhead(path: bytes)
    ensures Standard(path, []) == (if InStep(path) then [] else [SLASH]) + Removed(path)
    ensures Removed(path) == Standard(path, []) <==> InStep(path)
  {
    hide Standard, Rewrite, WalkFrom;
    StartIsIdeal(path, 0);
    assert path[0..] == path;
    assert [] + Removed(path) == Removed(path);
  }

  lemma {:induction false} AbsoluteStays(path: bytes, i: nat)
    ensures WalkFrom(path, i, Absolute) == Absolute
    decreases |path| + 1 - i
  {
    if i < |path| {
      AbsoluteStays(path, NextSlash(path, i) + 1);
    }
  }

  /** In particular on every path that begins with a solidus. */
  lemma RemovedIsStandard(path: bytes)
    requires path != [] && path[0] == SLASH
    ensures Removed(path) == Standard(path, [])
  {
    hide Standard, Rewrite;
    RemovedOrAhead(path);
    assert NextSlash(path, 0) == 0 && path[0..0] == [];
    AbsoluteStays(path, 1);
  }

  predicate GoesUp(path: bytes) {
    exists i, j :: 0 <= i <= j <= |path| && (i == 0 || path[i - 1] == SLASH) && (j < |path| ==> path[j] == SLASH)
      && path[i..j] == [DOT, DOT]
  }

  /** And on every path, relative or not, without a segment `..`. */
  lemma StaysInStep(path: bytes)
    requires !GoesUp(path)
    ensures Removed(path) == Standard(path, [])
  {
    hide Standard, Rewrite, GoesUp, WalkFrom;
    RemovedOrAhead(path);
    StaysInStepFrom(path, 0, Start);
  }

  lemma {:induction false} StaysInStepFrom(path: bytes, i: nat, w: Walk)
    requires !GoesUp(path) && !w.Ahead? && (i == 0 || i > |path| || path[i - 1] == SLASH)
    ensures !WalkFrom(path, i, w).Ahead?
    decreases |path| + 1 - i
  {
    if i < |path| {
      var j := NextSlash(path, i);
      assert path[i..j] != [DOT, DOT];
      StaysInStepFrom(path, j + 1, WalkSegment(w, path[i..j]));
    }
  }

  /** On `a/..` the solidus is lost. */
  lemma RelativePathsDiffer()
    ensures !InStep([0x61, SLASH, DOT, DOT])
    ensures Removed([0x61, SLASH, DOT, DOT]) != Standard([0x61, SLASH, DOT, DOT], [])
  {
    hide NextSlash, Removed, Standard;
    RemovedOrAhead([0x61, SLASH, DOT, DOT]);
    var path: bytes := [0x61, SLASH, DOT, DOT];
    NextSlashIs(path, 0, 1);
    NextSlashIs(path, 2, 4);
    assert path[0..1] == [0x61] && path[2..4] == [DOT, DOT];
    assert WalkFrom(path, 2, Relative(1)) == WalkFrom(path, 5, Ahead(0, false));
  }

  /** In `a/..//..` it is lost and made up for. */
  lemma BackInStep()
    ensures InStep([0x61, SLASH, DOT, DOT, SLASH, SLASH, DOT, DOT])
    ensures Removed([0x61, SLASH, DOT, DOT, SLASH, SLASH, DOT, DOT])
            == Standard([0x61, SLASH, DOT, DOT, SLASH, SLASH, DOT, DOT], [])
  {
    hide InStep, Removed, Standard;
    RemovedOrAhead([0x61, SLASH, DOT, DOT, SLASH, SLASH, DOT, DOT]);
    UpTwiceInStep([0x61, SLASH, DOT, DOT, SLASH, SLASH, DOT, DOT]);
  }

  lemma UpTwiceInStep(path: bytes)
    requires |path| == 8 && path[0] == 0x61 && path[1] == path[4] == path[5] == SLASH
    requires path[2] == path[3] == path[6] == path[7] == DOT
    ensures InStep(path)
  {
    hide NextSlash, WalkFrom, WalkSegment;
    NextSlashIs(path, 0, 1);
    NextSlashIs(path, 2, 4);
    NextSlashIs(path, 5, 5);
    NextSlashIs(path, 6, 8);
    WalkUnfold(path, 0, Start, []);
    WalkUnfold(path, 2, Relative(1), []);
    WalkUnfold(path, 5, Ahead(0, false), []);
    WalkUnfold(path, 6, Ahead(1, true), []);
    OneName(path[0..1]);
    UpOnce(path[2..4]);
    EmptyBehind();
    UpOnce(path[6..8]);
    assert path[5..5] == [];
  }

  lemma OneName(segment: bytes)
    requires |segment| == 1 && segment[0] == 0x61
    ensures WalkSegment(Start, segment) == Relative(1)
  {
  }

  lemma UpOnce(segment: bytes)
    requires |segment| == 2 && segment[0] == segment[1] == DOT
    ensures WalkSegment(Relative(1), segment) == Ahead(0, false) && WalkSegment(Ahead(1, true), segment) == Absolute
  {
    assert segment == [DOT, DOT];
  }

  lemma EmptyBehind()
    ensures WalkSegment(Ahead(0, false), []) == Ahead(1, true)
  {
  }

  // ---------- nothing is left to remove ----------

  /** A whole segment `.` or `..` stands at position `i`. */
  predicate DotSegmentAt(p: bytes, i: nat) {
    && i < |p| && (i == 0 || p[i - 1] == SLASH) && p[i] == DOT
    && (i + 1 == |p| || p[i + 1] == SLASH || (p[i + 1] == DOT && (i + 2 == |p| || p[i + 2] == SLASH)))
  }

  predicate NoDotSegments(p: bytes) {
    forall i :: 0 <= i < |p| ==> !DotSegmentAt(p, i)
  }

  predicate Tidy(out: bytes) {
    NoDotSegments(out) && (out == [] || out[|out| - 1] == SLASH)
  }

  lemma TidyPrefix(out: bytes, n: nat)
    requires Tidy(out) && n <= |out| && (n == 0 || out[n - 1] == SLASH)
    ensures Tidy(out[..n])
  {
    forall i | 0 <= i < n ensures !DotSegmentAt(out[..n], i) {
      assert !DotSegmentAt(out, i);
    }
  }

  lemma TidyGrows(out: bytes, segment: bytes, last: bool)
    requires Tidy(out) && SLASH !in segment && segment != [DOT] && segment != [DOT, DOT]
    ensures var next := out + segment + (if last then [] else [SLASH]);
            NoDotSegments(next) && (!last ==> Tidy(next))
  {
    var next := out + segment + (if last then [] else [SLASH]);
    assert forall k :: 0 <= k < |segment| ==> next[|out| + k] == segment[k] && segment[k] != SLASH;
    assert forall k :: 0 <= k < |out| ==> next[k] == out[k];
    assert !last ==> next[|out| + |segment|] == SLASH;
    forall i | 0 <= i < |next| ensures !DotSegmentAt(next, i) {
      if i < |out| {
        assert !DotSegmentAt(out, i);
      }
    }
  }

  /**
   A path that has been rewritten has no dot segment left, and the trailing solidus the source asserts
   is there after every segment.
   */
  lemma {:induction false} RewriteTidies(path: bytes, i: nat, out: bytes)
    requires Tidy(out)
    ensures NoDotSegments(Rewrite(path, i, out))
    decreases |path| + 1 - i
  {
    hide NextSlash, NoDotSegments, AddSegment;
    if i < |path| {
      hide Rewrite;
      var j := NextSlash(path, i);
      var next := AddSegment(out, path[i..j], j == |path|);
      WalkUnfold(path, i, Start, out);
      AddSegmentTidies(out, path[i..j], j == |path|);
      if j < |path| {
        RewriteTidies(path, j + 1, next);
      }
    }
  }

  lemma AddSegmentTidies(out: bytes, segment: bytes, last: bool)
    requires Tidy(out) && SLASH !in segment
    ensures NoDotSegments(AddSegment(out, segment, last)) && (!last ==> Tidy(AddSegment(out, segment, last)))
  {
    hide NoDotSegments, AfterLastSlash;
    if segment == [DOT, DOT] {
      TidyPrefix(out, BackedUp(out));
    } else if segment != [DOT] {
      TidyGrows(out, segment, last);
    }
  }

  lemma {:induction false} RewriteKeeps(path: bytes, i: nat, out: bytes)
    requires NoDotSegments(path) && i <= |path| && (i == 0 || path[i - 1] == SLASH) && out == path[..i]
    ensures Rewrite(path, i, out) == path
    decreases |path| - i
  {
    hide NextSlash;
    if i == |path| {
      assert path[..i] == path;
    } else {
      var j := NextSlash(path, i);
      assert !DotSegmentAt(path, i);
      assert path[i..j] != [DOT] && path[i..j] != [DOT, DOT] by {
        NoDots(path, i, j);
      }
      if j < |path| {
        assert path[..i] + path[i..j] + [SLASH] == path[..j + 1];
        RewriteKeeps(path, j + 1, path[..j + 1]);
      } else {
        assert path[..i] + path[i..j] + [] == path;
        assert Rewrite(path, j + 1, path) == path;
      }
    }
  }

  lemma NoDots(path: bytes, i: nat, j: nat)
    requires i < |path| && i <= j <= |path| && (j < |path| ==> path[j] == SLASH) && (i == 0 || path[i - 1] == SLASH)
    ensures path[i..j] == [DOT] || path[i..j] == [DOT, DOT] ==> DotSegmentAt(path, i)
  {
    if path[i..j] == [DOT] {
      assert path[i..j][0] == path[i];
    }
    if path[i..j] == [DOT, DOT] {
      assert path[i..j][0] == path[i] && path[i..j][1] == path[i + 1];
    }
  }

  /**
   Main result: no dot segment is left, a path without any is kept as it is, and so removing twice is
   removing once.
   */
  lemma RemovedIsClean(path: bytes)
    ensures NoDotSegments(Removed(path))
    ensures NoDotSegments(path) ==> Removed(path) == path
    ensures Removed(Removed(path)) == Removed(path)
  {
    hide Rewrite;
    RewriteTidies(path, 0, []);
    if NoDotSegments(path) {
      RewriteKeeps(path, 0, []);
    }
    RewriteKeeps(Removed(path), 0, []);
  }

  // ---------- in place ----------

  /**
   Rewrites the path in its own buffer, the byte after the path being its terminator.
   Returns the new length. The new path never overtakes the position that is read next.
   */
  method RemoveDotSegments(path: array<byte>, pathlen: nat) returns (newpos: nat)
    requires pathlen < path.Length
    modifies path
    ensures newpos <= pathlen && path[..newpos] == Removed(old(path[..pathlen])) && path[newpos] == NUL
  {
    hide Rewrite, NextSlash, NoDotSegments, AddSegment, BackedUp;
    ghost var was := path[..pathlen];
    var pathpos := 0;
    newpos := 0;
    assert path[..0] == [];
    EmptyIsTidy();
    while pathpos < pathlen
      invariant newpos <= pathpos <= pathlen + 1 && newpos <= pathlen
      invariant pathpos <= pathlen ==> Tidy(path[..newpos])
      invariant pathpos <= pathlen ==> path[pathpos..pathlen] == was[pathpos..]
      invariant Rewrite(was, pathpos, path[..newpos]) == Removed(was)
      decreases pathlen + 1 - pathpos
    {
      ghost var out, rest := path[..newpos], path[pathpos..pathlen];
      var slashpos := SegmentLength(path, pathpos, pathlen);
      ghost var segment := path[pathpos..pathpos + slashpos];
      ghost var last := pathpos + slashpos == pathlen;
      PartOfRest(path[..], pathpos, pathlen, slashpos);
      SegmentOfRest(was, pathpos, rest, slashpos);
      AddSegmentTidies(out, segment, last);
      RewriteUnfold(was, pathpos, out);
      newpos := ApplySegment(path, pathlen, pathpos, newpos, slashpos);
      pathpos := pathpos + slashpos + 1;
      assert pathpos <= pathlen ==> was[pathpos..] == rest[slashpos + 1..];
    }
    RewriteEnds(was, pathpos, path[..newpos]);
    path[newpos] := NUL;
  }

  /** One round of the loop: backs up, leaves the new path alone, or moves the segment to its end. */
  method ApplySegment(path: array<byte>, pathlen: nat, pathpos: nat, pos: nat, slashpos: nat) returns (newpos: nat)
    requires pos <= pathpos && pathpos + slashpos <= pathlen < path.Length
    requires pos == 0 || path[pos - 1] == SLASH
    modifies path
    ensures newpos <= pathpos + slashpos + 1 && newpos <= pathlen
    ensures path[..newpos]
            == AddSegment(old(path[..pos]), old(path[pathpos..pathpos + slashpos]), pathpos + slashpos == pathlen)
    ensures pathpos + slashpos < pathlen ==>
              path[pathpos + slashpos + 1..pathlen] == old(path[pathpos..pathlen])[slashpos + 1..]
  {
    hide AfterLastSlash;
    newpos := pos;
    SegmentBytes(path[..], pathpos, slashpos);
    if slashpos == 2 && path[pathpos] == DOT && path[pathpos + 1] == DOT {
      assert path[pathpos..pathpos + slashpos] == [DOT, DOT];
      assert newpos == 0 || path[newpos - 1] == SLASH;
      newpos := BackUp(path, newpos);
    } else if slashpos == 1 && path[pathpos] == DOT {
      assert path[pathpos..pathpos + slashpos] == [DOT];
    } else {
      newpos := MoveSegment(path, pathlen, pathpos, newpos, slashpos);
    }
  }

  predicate IsSegment(rest: bytes, n: nat) {
    n <= |rest| && (n < |rest| ==> rest[n] == SLASH) && forall k :: 0 <= k < n ==> rest[k] != SLASH
  }

  lemma SegmentOfRest(was: bytes, i: nat, rest: bytes, n: nat)
    requires i <= |was| && rest == was[i..] && IsSegment(rest, n)
    ensures NextSlash(was, i) == i + n && rest[..n] == was[i..i + n] && SLASH !in rest[..n]
  {
    assert forall k :: i <= k < |was| ==> was[k] == rest[k - i];
    NextSlashIs(was, i, i + n);
  }

  lemma PartOfRest(path: bytes, i: nat, end: nat, n: nat)
    requires i + n <= end <= |path|
    ensures path[i..end][..n] == path[i..i + n]
  {
  }

  lemma EmptyIsTidy()
    ensures Tidy([])
  {
  }

  lemma SegmentBytes(was: bytes, pathpos: nat, slashpos: nat)
    requires pathpos + slashpos <= |was|
    ensures was[pathpos..pathpos + slashpos] == [DOT] ==> slashpos == 1 && was[pathpos] == DOT
    ensures was[pathpos..pathpos + slashpos] == [DOT, DOT] ==>
              slashpos == 2 && was[pathpos] == DOT && was[pathpos + 1] == DOT
  {
    var segment := was[pathpos..pathpos + slashpos];
    assert |segment| == slashpos;
    assert slashpos >= 1 ==> segment[0] == was[pathpos];
    assert slashpos >= 2 ==> segment[1] == was[pathpos + 1];
  }

  lemma RewriteUnfold(path: bytes, i: nat, out: bytes)
    requires i < |path|
    ensures var j := NextSlash(path, i);
            Rewrite(path, i, out) == Rewrite(path, j + 1, AddSegment(out, path[i..j], j == |path|))
  {
  }

  lemma RewriteEnds(path: bytes, i: nat, out: bytes)
    requires i >= |path|
    ensures Rewrite(path, i, out) == out
  {
  }

  method SegmentLength(path: array<byte>, pathpos: nat, pathlen: nat) returns (slashpos: nat)
    requires pathpos < pathlen <= path.Length
    ensures pathpos + slashpos <= pathlen
    ensures IsSegment(path[pathpos..pathlen], slashpos)
  {
    slashpos := 0;
    while pathpos + slashpos < pathlen
      invariant pathpos + slashpos <= pathlen
      invariant forall k :: pathpos <= k < pathpos + slashpos ==> path[k] != SLASH
    {
      if path[pathpos + slashpos] == SLASH {
        break;
      }
      slashpos := slashpos + 1;
    }
  }

  method BackUp(path: array<byte>, newpos: nat) returns (n: nat)
    requires newpos <= path.Length
    ensures n <= newpos && path[..n] == path[..newpos][..BackedUp(path[..newpos])]
  {
    n := newpos;
    if newpos > 1 {
      var lastslashpos := newpos - 1;
      while lastslashpos > 0
        invariant 0 <= lastslashpos <= newpos - 1
        invariant forall k :: lastslashpos <= k < newpos - 1 ==> path[k] != SLASH
      {
        if path[lastslashpos - 1] == SLASH {
          break;
        }
        lastslashpos := lastslashpos - 1;
      }
      AfterLastSlashIs(path[..newpos], newpos - 1, lastslashpos);
      n := lastslashpos;
    }
  }

  /** `memmove` of a segment to the end of the new path, and the solidus after it. */
  method MoveSegment(path: array<byte>, pathlen: nat, pathpos: nat, newpos: nat, slashpos: nat) returns (n: nat)
    requires newpos <= pathpos && pathpos + slashpos <= pathlen < path.Length
    modifies path
    ensures n == newpos + slashpos + (if pathpos + slashpos < pathlen then 1 else 0)
    ensures path[..n] == old(path[..newpos]) + old(path[pathpos..pathpos + slashpos])
                         + (if pathpos + slashpos == pathlen then [] else [SLASH])
    ensures pathpos + slashpos < pathlen ==>
              path[pathpos + slashpos + 1..pathlen] == old(path[pathpos + slashpos + 1..pathlen])
  {
    hide Moved;
    ghost var before := path[..];
    NothingMoved(before, newpos, pathpos);
    var k := 0;
    while k < slashpos
      invariant 0 <= k <= slashpos
      invariant Moved(before, path[..], newpos, pathpos, k)
    {
      ghost var now := path[..];
      MovedStep(before, now, newpos, pathpos, k);
      path[newpos + k] := path[pathpos + k];
      assert path[..] == now[newpos + k := now[pathpos + k]];
      k := k + 1;
    }
    n := newpos + slashpos;
    ghost var now := path[..];
    MovedParts(before, now, newpos, pathpos, slashpos);
    if pathpos + slashpos < pathlen {
      path[n] := SLASH;
      assert path[..] == now[n := SLASH];
      TailKept(before, now, n, pathpos + slashpos + 1, pathlen);
      assert path[..n + 1] == now[..n] + [SLASH];
      n := n + 1;
    }
    assert path[..n] == path[..][..n];
    assert pathpos + slashpos < pathlen ==>
        path[pathpos + slashpos + 1..pathlen] == path[..][pathpos + slashpos + 1..pathlen];
  }

  /** `k` bytes have been copied down from `from` to `to`; what lies beyond them is untouched. */
  predicate Moved(m: bytes, n: bytes, to: nat, from: nat, k: nat) {
    && to <= from && from + k <= |m| == |n|
    && (forall i :: 0 <= i < to ==> n[i] == m[i])
    && (forall i :: to <= i < to + k ==> n[i] == m[i - to + from])
    && (forall i :: from + k <= i < |m| ==> n[i] == m[i])
  }

  lemma NothingMoved(m: bytes, to: nat, from: nat)
    requires to <= from <= |m|
    ensures Moved(m, m, to, from, 0)
  {
  }

  lemma MovedStep(m: bytes, n: bytes, to: nat, from: nat, k: nat)
    requires Moved(m, n, to, from, k) && from + k < |m|
    ensures Moved(m, n[to + k := n[from + k]], to, from, k + 1)
  {
  }

  lemma MovedParts(m: bytes, n: bytes, to: nat, from: nat, k: nat)
    requires Moved(m, n, to, from, k)
    ensures |n| == |m| && n[..to + k] == m[..to] + m[from..from + k] && n[from + k..] == m[from + k..]
  {
  }

  lemma TailKept(m: bytes, n: bytes, at: nat, from: nat, to: nat)
    requires |m| == |n| && at < from <= to <= |m| && n[from - 1..] == m[from - 1..]
    ensures n[at := SLASH][from..to] == m[from..to]
  {
    assert forall i :: from <= i < to ==> n[i] == n[from - 1..][i - from + 1] == m[i];
  }
}
