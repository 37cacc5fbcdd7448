/** Caller options and their normalisation (src/options.ts). */
module Options {
  import opened Wrappers

  datatype Mode = Fetch | Iframe | Auto

  /** What a caller may pass; `None` is an absent (or nullish) field. The
      abort signal is passed through untouched and is not modelled. */
  datatype FolderApiOptions = FolderApiOptions(maxDepth: Option<int>, mode: Option<Mode>,
                                               includeMime: Option<bool>, headConcurrency: Option<int>,
                                               timeoutMs: Option<int>, sameOriginOnly: Option<bool>)

  datatype NormalizedOptions = NormalizedOptions(maxDepth: nat, mode: Mode, includeMime: bool,
                                                 headConcurrency: nat, timeoutMs: nat,
                                                 sameOriginOnly: bool)

  /** `Math.max(lo, value ?? fallback)` */
  function AtLeast(lo: nat, value: Option<int>, fallback: int): (r: nat)
    ensures r >= lo
    ensures value.Some? && value.value >= lo ==> r == value.value
    ensures value.Some? && value.value < lo ==> r == lo
    ensures value.None? ==> r == (if fallback >= lo then fallback else lo)
  {
    var v := value.GetOr(fallback);
    if v >= lo then v else lo
  }

  /** `normalizeOptions(opts)`; `None` stands for an `undefined` argument. */
  function NormalizeOptions(opts: Option<FolderApiOptions>): (r: NormalizedOptions)
    ensures r.maxDepth >= 0 && r.headConcurrency >= 1 && r.timeoutMs >= 100
    ensures opts.None? ==> r == Defaults
    ensures opts.Some? ==>
              r.mode == opts.value.mode.GetOr(Auto)
              && r.includeMime == opts.value.includeMime.GetOr(false)
              && r.sameOriginOnly == opts.value.sameOriginOnly.GetOr(true)
              && r.maxDepth == AtLeast(0, opts.value.maxDepth, 0)
              && r.headConcurrency == AtLeast(1, opts.value.headConcurrency, 4)
              && r.timeoutMs == AtLeast(100, opts.value.timeoutMs, 15000)
  {
    var o := opts.GetOr(FolderApiOptions(None, None, None, None, None, None));
    NormalizedOptions(AtLeast(0, o.maxDepth, 0), o.mode.GetOr(Auto), o.includeMime.GetOr(false),
                      AtLeast(1, o.headConcurrency, 4), AtLeast(100, o.timeoutMs, 15000),
                      o.sameOriginOnly.GetOr(true))
  }

  /** Depth 0, auto mode, no MIME probing, four probes at a time, 15 s per
      directory, same origin only. */
  const Defaults := NormalizedOptions(0, Auto, false, 4, 15000, true)

  /** The options a normalised value would be passed back as. */
  function AsGiven(n: NormalizedOptions): FolderApiOptions {
    FolderApiOptions(Some(n.maxDepth), Some(n.mode), Some(n.includeMime), Some(n.headConcurrency),
                     Some(n.timeoutMs), Some(n.sameOriginOnly))
  }

  /** Normalising is idempotent: normalised options pass through unchanged. */
  lemma NormalizeIdempotent(opts: Option<FolderApiOptions>)
    ensures NormalizeOptions(Some(AsGiven(NormalizeOptions(opts)))) == NormalizeOptions(opts)
  {
  }

  /** Every field of a normalised value is passed through when given back. */
  lemma NormalizedIsFixed(n: NormalizedOptions)
    requires n.headConcurrency >= 1 && n.timeoutMs >= 100
    ensures NormalizeOptions(Some(AsGiven(n))) == n
  {
  }

  /** The unit-test witnesses: defaults, and clamping of out-of-range values. */
  lemma NormalizeExamples()
    ensures NormalizeOptions(None) == Defaults
    ensures var o := NormalizeOptions(Some(FolderApiOptions(Some(-5), None, None, Some(0), Some(50), None)));
            o.maxDepth == 0 && o.headConcurrency == 1 && o.timeoutMs == 100
  {
  }
}
