/** The name under which an upload is stored on disk: the upload's
    millisecond timestamp, a dash, and the client's original file name. */
module FileNames {
  import opened Basics

  /** The `filename` callback of the disk storage: `Date.now() + '-' + originalname`,
      with the clock reading passed in. */
  function StoredFileName(timestamp: nat, originalName: string): (r: string)
    ensures |r| > |originalName| + 1
    ensures r[|r| - |originalName| - 1..] == "-" + originalName
    ensures IsDigits(r[..|r| - |originalName| - 1])
  {
    var stamp := Decimal(timestamp);
    var r := stamp + "-" + originalName;
    assert r[..|stamp|] == stamp;
    assert r[|stamp|..] == "-" + originalName;
    r
  }

  /** Index of the first '-' of `s`, or |s| when there is none. */
  function FirstDash(s: string): (i: nat)
    ensures i <= |s|
    ensures i < |s| ==> s[i] == '-'
    ensures forall j | 0 <= j < i :: s[j] != '-'
  {
    if s == [] then 0
    else if s[0] == '-' then 0
    else 1 + FirstDash(s[1..])
  }

  /** Reads back the timestamp and the original name from a stored name. */
  function ParseStoredFileName(name: string): Option<(nat, string)>
  {
    var i := FirstDash(name);
    if 0 < i < |name| && IsDigits(name[..i]) then Some((DigitsValue(name[..i]), name[i + 1..]))
    else None
  }

  /** Nothing is lost in the stored name: the timestamp and the original name
      (which may itself contain dashes) are both recoverable from it. */
  lemma StoredFileNameRoundTrip(timestamp: nat, originalName: string)
    ensures ParseStoredFileName(StoredFileName(timestamp, originalName)) == Some((timestamp, originalName))
  {
    var stamp := Decimal(timestamp);
    var r := StoredFileName(timestamp, originalName);
    assert r == stamp + "-" + originalName;
    var i := FirstDash(r);
    assert r[|stamp|] == '-';
    assert i == |stamp|;
    assert r[..i] == stamp;
    assert r[i + 1..] == originalName;
    DecimalRoundTrip(timestamp);
  }
}
