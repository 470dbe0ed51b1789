/** AsyncFileUploadProgressDetails: an immutable snapshot of one upload's
    progress. Its three fields are set once by the constructor (the setters
    are private), so the record is a datatype value; `Progress` and
    `BytesRemaining` are the two derived getters. */
module ProgressDetails {
  import opened Int32

  datatype Details = Details(TotalBytes: int32, BytesRead: int32, FileName: string)

  /** The shape of every record the upload module publishes. */
  predicate WellFormed(d: Details)
  {
    0 <= d.BytesRead <= d.TotalBytes
  }

  /** `(int)((long)BytesRead * 100 / TotalBytes)`: widened to 64 bits, so
      the product never overflows; the quotient truncates toward zero and the
      cast back to `int` wraps. The code divides without a guard, so a record
      whose `TotalBytes` is 0 has no progress (the getter throws). On a
      well-formed record the result is the floor of the percentage. */
  function Progress(d: Details): (p: int32)
    requires d.TotalBytes != 0
    ensures WellFormed(d) ==> p == d.BytesRead * 100 / d.TotalBytes
    ensures WellFormed(d) ==> 0 <= p <= 100
    ensures WellFormed(d) && d.BytesRead == d.TotalBytes ==> p == 100
  {
    var widened: int64 := d.BytesRead * 100;
    var quotient := TruncDiv(widened, d.TotalBytes);
    if WellFormed(d) then
      PercentBound(d.BytesRead, d.TotalBytes);
      Wrap(quotient)
    else
      Wrap(quotient)
  }

  /** `TotalBytes - BytesRead` in unchecked `int` arithmetic. Whenever both
      fields are non-negative the subtraction cannot wrap. */
  function BytesRemaining(d: Details): (n: int32)
    ensures 0 <= d.BytesRead && 0 <= d.TotalBytes ==> n == d.TotalBytes - d.BytesRead
    ensures WellFormed(d) ==> 0 <= n <= d.TotalBytes
  {
    Wrap(d.TotalBytes - d.BytesRead)
  }

  lemma PercentBound(read: int, total: int)
    requires 0 <= read <= total && 0 < total
    ensures 0 <= read * 100 / total <= 100
    ensures read == total ==> read * 100 / total == 100
  {
    var q := read * 100 / total;
    assert q * total <= read * 100 <= total * 100;
    assert read == total ==> q == 100;
  }

  /** Nothing remains exactly when every declared byte has been read, and
      then the record shows 100 percent. */
  lemma RemainingZeroIffComplete(d: Details)
    requires WellFormed(d)
    ensures BytesRemaining(d) == 0 <==> d.BytesRead == d.TotalBytes
    ensures BytesRemaining(d) == 0 && d.TotalBytes != 0 ==> Progress(d) == 100
  {
  }

  /** For a fixed total, reading more never lowers the percentage: a poller
      that sees records in increasing BytesRead order sees a non-decreasing
      percentage. */
  lemma ProgressMonotone(a: Details, b: Details)
    requires WellFormed(a) && WellFormed(b) && a.TotalBytes == b.TotalBytes != 0
    requires a.BytesRead <= b.BytesRead
    ensures Progress(a) <= Progress(b)
  {
    DivisionMonotone(a.BytesRead * 100, b.BytesRead * 100, a.TotalBytes);
  }

  lemma DivisionMonotone(x: int, y: int, t: int)
    requires 0 <= x <= y && 0 < t
    ensures x / t <= y / t
  {
    var qx, qy := x / t, y / t;
    assert qx * t <= x;
    assert y < (qy + 1) * t;
  }
}
