/** `update_queue_progress_hook`: how one progress record that the
    extractor hands to the hook is turned into an update of the progress
    column, or into none. */
module ProgressHook {

  /** What `d.get(key, ...)` finds for a key of the record: no such key,
      a Python `None`, or a number (int and float alike). */
  datatype Field = Missing | Null | Num(v: real)

  /** The keys of the record that the hook reads. */
  datatype HookRecord = HookRecord(
    status: string,
    downloadedBytes: Field,
    totalBytes: Field,
    totalBytesEstimate: Field)

  /** What the hook schedules: a percentage, the text "Converting...",
      nothing, or a `TypeError` raised inside the hook (a `None` compared
      with or divided by a number). */
  datatype HookOutcome = ShowPercent(percent: real) | ShowConverting | NoUpdate | HookFault

  /** `d.get(key, default)` */
  function GetOr(f: Field, default: real): Field
  {
    if f.Missing? then Num(default) else f
  }

  /** Python truthiness of a looked-up value. */
  predicate Truthy(f: Field)
  {
    f.Num? && f.v != 0.0
  }

  /** `d.get('total_bytes', 0) or d.get('total_bytes_estimate', 0)` */
  function KnownTotal(d: HookRecord): Field
  {
    var exact := GetOr(d.totalBytes, 0.0);
    if Truthy(exact) then exact else GetOr(d.totalBytesEstimate, 0.0)
  }

  /** The size the hook divides by exists and is positive. */
  predicate HasPositiveTotal(d: HookRecord)
  {
    KnownTotal(d).Num? && KnownTotal(d).v > 0.0
  }

  /** The decision made by `update_queue_progress_hook`. */
  function Classify(d: HookRecord): (r: HookOutcome)
    ensures r == ShowConverting <==> d.status == "finished"
    ensures r.ShowPercent? <==>
              d.status == "downloading" && HasPositiveTotal(d) && !d.downloadedBytes.Null?
    ensures r.ShowPercent? ==>
              r.percent * KnownTotal(d).v == GetOr(d.downloadedBytes, 0.0).v * 100.0
    ensures r == HookFault <==>
              d.status == "downloading" && (KnownTotal(d).Null? || (HasPositiveTotal(d) && d.downloadedBytes.Null?))
    ensures d.status != "downloading" && d.status != "finished" ==> r == NoUpdate
  {
    if d.status == "downloading" then
      var downloaded := GetOr(d.downloadedBytes, 0.0);
      var total := KnownTotal(d);
      if total.Null? then HookFault
      else if total.v > 0.0 then
        if downloaded.Null? then HookFault else ShowPercent(downloaded.v / total.v * 100.0)
      else NoUpdate
    else if d.status == "finished" then ShowConverting
    else NoUpdate
  }

  /** A record that reports `total_bytes` uses it, whatever the estimate says. */
  lemma ExactTotalWins(d: HookRecord, done: real, total: real)
    requires d.status == "downloading" && d.downloadedBytes == Num(done) && d.totalBytes == Num(total)
    requires total > 0.0
    ensures Classify(d) == ShowPercent(done / total * 100.0)
  {
  }

  /** With `total_bytes` absent, `None` or 0 the estimate is used. */
  lemma EstimateFallback(d: HookRecord, total: real)
    requires d.status == "downloading" && !d.downloadedBytes.Null?
    requires !Truthy(GetOr(d.totalBytes, 0.0)) && d.totalBytesEstimate == Num(total) && total > 0.0
    ensures Classify(d) == ShowPercent(GetOr(d.downloadedBytes, 0.0).v / total * 100.0)
  {
  }

  /** No size known at all (both keys absent or 0): no update is scheduled. */
  lemma NoTotalNoUpdate(d: HookRecord)
    requires d.status == "downloading"
    requires d.totalBytes in {Missing, Num(0.0)} && d.totalBytesEstimate in {Missing, Num(0.0)}
    ensures Classify(d) == NoUpdate
  {
  }

  /** Whenever the downloaded count lies between 0 and the size, the
      percentage lies between 0 and 100. */
  lemma PercentInRange(d: HookRecord)
    requires Classify(d).ShowPercent?
    requires 0.0 <= GetOr(d.downloadedBytes, 0.0).v <= KnownTotal(d).v
    ensures 0.0 <= Classify(d).percent <= 100.0
  {
    var x, t := GetOr(d.downloadedBytes, 0.0).v, KnownTotal(d).v;
    var q := x / t;
    assert q * t == x;
    NonNegativeFactor(q, t);
    assert (1.0 - q) * t == t - x;
    NonNegativeFactor(1.0 - q, t);
    assert Classify(d).percent == q * 100.0;
  }

  /** A product with a positive factor is non-negative only if the other
      factor is. */
  lemma NonNegativeFactor(a: real, t: real)
    requires t > 0.0 && a * t >= 0.0
    ensures a >= 0.0
  {
  }
}
