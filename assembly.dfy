/** Turning a window of `h + n` consecutive transitions into one training
    sample: frames from before the episode start and after the episode end are
    replaced by the blank transition, then the state is stacked from frames
    `[0, h)`, the n-th next state from frames `[n, n + h)`, and the truncated
    n-step return is summed from the rewards of frames `h - 1 .. h + n - 2`. */
module Assembly {
  import opened Records

  /** A frame of the history segment after which, still inside the history,
      an episode starts again (a frame with timestep 0). */
  predicate StartsLater(w: seq<Transition>, h: int, t: int)
    requires h <= |w|
  {
    exists j :: t < j < h && 0 <= j && w[j].timestep == 0
  }

  /** A frame of the n-step segment that comes after a terminal frame, the last
      history frame included. */
  predicate EndsEarlier(w: seq<Transition>, h: int, t: int)
    requires t <= |w|
  {
    exists j :: h - 1 <= j < t && 0 <= j && !w[j].nonterminal
  }

  /** Whether a frame ends the episode early depends only on the frames from
      the last history frame on. */
  lemma EndsEarlierFromHistory(w: seq<Transition>, v: seq<Transition>, h: int)
    requires 1 <= h <= |w| == |v|
    requires forall j :: h - 1 <= j < |w| ==> v[j] == w[j]
    ensures forall t :: h <= t <= |w| ==> (EndsEarlier(v, h, t) <==> EndsEarlier(w, h, t))
  {
  }

  /** Whether one of the two masking passes replaces frame `t` by the blank
      transition: a history frame before a later episode start, or an n-step
      frame after a terminal one. The last history frame is never masked. */
  predicate Masked(w: seq<Transition>, h: nat, n: nat, t: int)
    requires 1 <= h && |w| == h + n && 0 <= t < |w|
  {
    (t < h - 1 && StartsLater(w, h, t)) || (h <= t && EndsEarlier(w, h, t))
  }

  /** The window after both masking passes: every frame is kept or blanked,
      and the sampled frame `h - 1` is always kept. */
  function MaskWindow(w: seq<Transition>, h: nat, n: nat): (m: seq<Transition>)
    requires 1 <= h && |w| == h + n
    ensures |m| == |w| && m[h - 1] == w[h - 1]
    ensures forall t :: 0 <= t < |w| ==> m[t] == w[t] || m[t] == Blank()
  {
    seq(|w|, t requires 0 <= t < |w| => if Masked(w, h, n, t) then Blank() else w[t])
  }

  // ---------------------------------------------------------------------------
  // Windows with unwritten frames

  /** A decoded window, `None` where the slot was never written, with every
      hole filled by the blank transition. */
  function Fill(w: seq<Option<Transition>>): (v: seq<Transition>)
    ensures |v| == |w|
    ensures forall j :: 0 <= j < |w| && w[j].Some? ==> v[j] == w[j].value
  {
    seq(|w|, j requires 0 <= j < |w| => if w[j].Some? then w[j].value else Blank())
  }

  /** Every unwritten frame of the window is blanked by the masking before
      anything reads it. The masking passes read every frame from 1 on after
      it has been processed, and the assembly reads every frame, so a window
      is turned into a sample exactly when this holds; otherwise an unwritten
      frame is read. */
  predicate Readable(w: seq<Option<Transition>>, h: nat, n: nat)
    requires 1 <= h && |w| == h + n
  {
    forall j :: 0 <= j < |w| && w[j].None? ==> Masked(Fill(w), h, n, j)
  }

  /** A window whose frames were all written is readable and is its own fill. */
  lemma WrittenWindow(v: seq<Transition>, h: nat, n: nat)
    requires 1 <= h && |v| == h + n
    ensures var w := seq(|v|, j requires 0 <= j < |v| => Some(v[j]));
            Readable(w, h, n) && Fill(w) == v
  {
    var w := seq(|v|, j requires 0 <= j < |v| => Some(v[j]));
    assert forall j :: 0 <= j < |v| ==> Fill(w)[j] == v[j];
  }

  /** The frames before an episode start inside the history may be unwritten,
      as they are when a sampled slot lies near the start of a shard that has
      not wrapped yet: the backward pass blanks them before they are read. */
  lemma UnwrittenBeforeEpisodeStart(w: seq<Option<Transition>>, h: nat, n: nat, j: int)
    requires 1 <= h && |w| == h + n && 1 <= j < h
    requires w[j].Some? && w[j].value.timestep == 0
    requires forall k :: j <= k < |w| ==> w[k].Some?
    ensures Readable(w, h, n)
    ensures forall t :: 0 <= t < j ==> MaskWindow(Fill(w), h, n)[t] == Blank()
  {
    var v := Fill(w);
    forall t | 0 <= t < j
      ensures Masked(v, h, n, t)
    {
      assert t < j < h && v[j].timestep == 0;
    }
  }

  /** The frames after a terminal frame may be unwritten as well: the forward
      pass blanks them before they are read. */
  lemma UnwrittenAfterTerminal(w: seq<Option<Transition>>, h: nat, n: nat, j: int)
    requires 1 <= h && |w| == h + n && h - 1 <= j < h + n
    requires w[j].Some? && !w[j].value.nonterminal
    requires forall k :: 0 <= k <= j ==> w[k].Some?
    ensures Readable(w, h, n)
    ensures forall t :: j < t < |w| ==> MaskWindow(Fill(w), h, n)[t] == Blank()
  {
    var v := Fill(w);
    forall t | j < t < |w|
      ensures Masked(v, h, n, t)
    {
      assert h - 1 <= j < t && !v[j].nonterminal;
    }
  }

  /** An unwritten sampled frame is never blanked, so such a window cannot be read. */
  lemma UnwrittenSampledFrame(w: seq<Option<Transition>>, h: nat, n: nat)
    requires 1 <= h && |w| == h + n && w[h - 1].None?
    ensures !Readable(w, h, n)
  {
    assert !Masked(Fill(w), h, n, h - 1);
  }

  function Pow(x: real, k: nat): real
  {
    if k == 0 then 1.0 else x * Pow(x, k - 1)
  }

  /** `sum(discount ** k * w[h + k - 1].reward for k in range(m))`. */
  function Return(w: seq<Transition>, h: nat, discount: real, m: nat): (r: real)
    requires 1 <= h && h + m <= |w| + 1
    ensures (forall j :: h - 1 <= j < h + m - 1 ==> w[j].reward == 0.0) ==> r == 0.0
  {
    if m == 0 then 0.0
    else Return(w, h, discount, m - 1) + Pow(discount, m - 1) * w[h + m - 2].reward
  }

  /** One training sample, before conversion to tensors. */
  datatype Sample = Sample(state: seq<Frame>, action: Option<int>, ret: real, nextState: seq<Frame>, nonterminal: bool)

  function Assemble(m: seq<Transition>, h: nat, n: nat, discount: real): (s: Sample)
    requires 1 <= h && |m| == h + n
    ensures |s.state| == h && |s.nextState| == h
    ensures s.state[h - 1] == m[h - 1].state && s.nextState[h - 1] == m[h + n - 1].state
    ensures s.action == m[h - 1].action && s.nonterminal == m[h + n - 1].nonterminal
  {
    Sample(seq(h, i requires 0 <= i < h => m[i].state),
           m[h - 1].action,
           Return(m, h, discount, n),
           seq(h, i requires 0 <= i < h => m[n + i].state),
           m[h + n - 1].nonterminal)
  }

  /** The sample of a window: mask, then assemble. */
  function SampleOf(w: seq<Transition>, h: nat, n: nat, discount: real): (s: Sample)
    requires 1 <= h && |w| == h + n
    ensures s.action == w[h - 1].action && |s.state| == h && s.state[h - 1] == w[h - 1].state
  {
    Assemble(MaskWindow(w, h, n), h, n, discount)
  }

  // ---------------------------------------------------------------------------
  // Properties of the masking

  /** The history pass runs from frame `h - 2` down to 0 and blanks a frame
      when the frame after it (already processed) has timestep 0: frame `t` is
      blanked exactly when frame `t + 1` starts an episode or was blanked. */
  lemma StartsLaterStep(w: seq<Transition>, h: nat, t: int)
    requires h <= |w| && 0 <= t < h - 1
    ensures StartsLater(w, h, t) <==> w[t + 1].timestep == 0 || StartsLater(w, h, t + 1)
  {
    if StartsLater(w, h, t) && w[t + 1].timestep != 0 {
      var j :| t < j < h && 0 <= j && w[j].timestep == 0;
      assert t + 1 < j;
    }
  }

  /** The n-step pass runs from frame `h` up and blanks a frame when the frame
      before it (already processed) is terminal: frame `t` is blanked exactly
      when frame `t - 1` is terminal or was blanked. */
  lemma EndsEarlierStep(w: seq<Transition>, h: nat, t: int)
    requires 1 <= h <= t <= |w|
    ensures EndsEarlier(w, h, t) <==> !w[t - 1].nonterminal || EndsEarlier(w, h, t - 1)
  {
    if EndsEarlier(w, h, t) && w[t - 1].nonterminal {
      var j :| h - 1 <= j < t && 0 <= j && !w[j].nonterminal;
      assert j < t - 1;
    }
  }

  /** An episode start at history frame `j` blanks every frame before it. */
  lemma EpisodeStartBlanksEarlierFrames(w: seq<Transition>, h: nat, n: nat, j: int, t: int)
    requires 1 <= h && |w| == h + n
    requires 1 <= j < h && w[j].timestep == 0 && 0 <= t < j
    ensures MaskWindow(w, h, n)[t] == Blank()
  {
    assert StartsLater(w, h, t);
  }

  /** A terminal frame `j` in `h - 1 .. h + n - 2` blanks every later frame of
      the window, and the sample is terminal. */
  lemma TerminalBlanksLaterFrames(w: seq<Transition>, h: nat, n: nat, discount: real, j: int, t: int)
    requires 1 <= h && |w| == h + n
    requires h - 1 <= j < h + n - 1 && !w[j].nonterminal && j < t < h + n
    ensures MaskWindow(w, h, n)[t] == Blank()
    ensures !SampleOf(w, h, n, discount).nonterminal
  {
    assert EndsEarlier(w, h, t);
    assert EndsEarlier(w, h, h + n - 1);
  }

  /** The last history frame is never masked: the action is the sampled
      transition's own. */
  lemma ActionOfSampledFrame(w: seq<Transition>, h: nat, n: nat, discount: real)
    requires 1 <= h && |w| == h + n
    ensures MaskWindow(w, h, n)[h - 1] == w[h - 1]
    ensures SampleOf(w, h, n, discount).action == w[h - 1].action
  {
  }

  /** The state stacks the masked frames `0 .. h - 1`, ending with the sampled
      frame itself, and the next state stacks the masked frames `n .. n + h - 1`. */
  lemma StateFrames(w: seq<Transition>, h: nat, n: nat, discount: real)
    requires 1 <= h && |w| == h + n
    ensures var s := SampleOf(w, h, n, discount);
            && |s.state| == h && |s.nextState| == h
            && (forall i :: 0 <= i < h ==> s.state[i] == MaskWindow(w, h, n)[i].state)
            && (forall i :: 0 <= i < h ==> s.nextState[i] == MaskWindow(w, h, n)[n + i].state)
            && s.state[h - 1] == w[h - 1].state
  {
  }

  /** The sample is non-terminal exactly when no frame from the sampled one to
      the n-th next one is terminal. */
  lemma NonterminalIff(w: seq<Transition>, h: nat, n: nat, discount: real)
    requires 1 <= h && |w| == h + n
    ensures SampleOf(w, h, n, discount).nonterminal <==>
            forall j :: h - 1 <= j < h + n ==> w[j].nonterminal
  {
    var m := MaskWindow(w, h, n);
    if n == 0 {
      assert m[h - 1] == w[h - 1];
    } else if EndsEarlier(w, h, h + n - 1) {
      assert m[h + n - 1] == Blank();
    } else {
      assert m[h + n - 1] == w[h + n - 1];
    }
  }

  /** A window without episode boundaries is used as it is. */
  lemma NoBoundaryNoMask(w: seq<Transition>, h: nat, n: nat)
    requires 1 <= h && |w| == h + n
    requires forall j :: 1 <= j < h ==> w[j].timestep != 0
    requires forall j :: h - 1 <= j < h + n - 1 ==> w[j].nonterminal
    ensures MaskWindow(w, h, n) == w
  {
  }

  /** The prefix of the return that only reads unmasked frames. */
  lemma {:induction false} ReturnOfUnmasked(w: seq<Transition>, h: nat, n: nat, discount: real, m: nat)
    requires 1 <= h && |w| == h + n && m <= n
    requires forall j :: h - 1 <= j < h + m - 2 ==> w[j].nonterminal
    ensures Return(MaskWindow(w, h, n), h, discount, m) == Return(w, h, discount, m)
  {
    if m > 0 {
      ReturnOfUnmasked(w, h, n, discount, m - 1);
      var t := h + m - 2;
      if h <= t {
        assert !EndsEarlier(w, h, t);
      }
    }
  }

  /** Past the first terminal frame every reward counts as 0. */
  lemma {:induction false} ReturnAfterTerminal(w: seq<Transition>, h: nat, n: nat, discount: real, k0: nat, m: nat)
    requires 1 <= h && |w| == h + n && k0 + 1 <= m <= n
    requires !w[h - 1 + k0].nonterminal
    ensures Return(MaskWindow(w, h, n), h, discount, m) == Return(MaskWindow(w, h, n), h, discount, k0 + 1)
  {
    if m > k0 + 1 {
      ReturnAfterTerminal(w, h, n, discount, k0, m - 1);
      var t := h + m - 2;
      assert EndsEarlier(w, h, t);
    }
  }

  /** The n-step return is truncated at the episode end: when frame
      `h - 1 + k0` is the first terminal one, the return sums the rewards of
      frames `h - 1 .. h - 1 + k0` only. */
  lemma TruncatedReturn(w: seq<Transition>, h: nat, n: nat, discount: real, k0: nat)
    requires 1 <= h && |w| == h + n && k0 < n
    requires !w[h - 1 + k0].nonterminal
    requires forall j :: h - 1 <= j < h - 1 + k0 ==> w[j].nonterminal
    ensures SampleOf(w, h, n, discount).ret == Return(w, h, discount, k0 + 1)
  {
    ReturnAfterTerminal(w, h, n, discount, k0, n);
    ReturnOfUnmasked(w, h, n, discount, k0 + 1);
  }
}
