/**
 * Vector-record identifiers: `f"{full_path}_{chunk_id}"`.  Because the
 * decimal digits of the chunk index hold no '_', the last '_' of an id
 * splits it back into the path and the index, so distinct (path, index)
 * pairs get distinct ids.
 */
module ChunkIds {
  import opened Strings

  predicate IsDigit(c: char) {
    '0' <= c <= '9'
  }

  function DigitChar(d: nat): char
    requires d < 10
  {
    ('0' as int + d) as char
  }

  /** `str(n)` for a non-negative integer: decimal digits, no leading zeros. */
  function DecimalString(n: nat): (s: string)
    ensures |s| > 0 && forall i :: 0 <= i < |s| ==> IsDigit(s[i])
    ensures s[0] == '0' ==> n == 0
    decreases n
  {
    if n < 10 then [DigitChar(n)] else DecimalString(n / 10) + [DigitChar(n % 10)]
  }

  /** Reads a string of decimal digits back as a number. */
  function ParseDecimal(s: string): nat
    requires forall i :: 0 <= i < |s| ==> IsDigit(s[i])
  {
    if s == [] then 0
    else
      assert IsDigit(s[|s| - 1]);
      10 * ParseDecimal(s[..|s| - 1]) + (s[|s| - 1] as int - '0' as int)
  }

  lemma {:induction false} ParseDecimalString(n: nat)
    ensures ParseDecimal(DecimalString(n)) == n
    decreases n
  {
    if n >= 10 {
      ParseDecimalString(n / 10);
      var s := DecimalString(n);
      assert s[..|s| - 1] == DecimalString(n / 10);
    }
  }

  /** The id of chunk `chunkId` of the file at `path`. */
  function FormatId(path: string, chunkId: nat): (id: string)
    ensures |id| > |path| + 1 && id[..|path|] == path && id[|path|] == '_'
  {
    path + "_" + DecimalString(chunkId)
  }

  /** Splits an id at its last '_' into a path and a decimal index. */
  function ParseId(id: string): Option<(string, nat)> {
    var k := LastIndexOf(id, '_');
    if k < 0 then None
    else
      var digits := id[k + 1..];
      if digits != [] && forall i :: 0 <= i < |digits| ==> IsDigit(digits[i])
      then Some((id[..k], ParseDecimal(digits)))
      else None
  }

  /** Parsing a formatted id gives back the path and the index. */
  lemma ParseFormatId(path: string, chunkId: nat)
    ensures ParseId(FormatId(path, chunkId)) == Some((path, chunkId))
  {
    var ds := DecimalString(chunkId);
    var id := FormatId(path, chunkId);
    assert id == path + "_" + ds;
    assert '_' !in ds by {
      forall i | 0 <= i < |ds| ensures ds[i] != '_' { assert IsDigit(ds[i]); }
    }
    LastIndexOfBeforeSuffix(path, '_', ds);
    assert id[|path| + 1..] == ds && id[..|path|] == path;
    ParseDecimalString(chunkId);
  }

  /** Distinct (path, index) pairs have distinct ids. */
  lemma FormatIdInjective(p1: string, n1: nat, p2: string, n2: nat)
    requires FormatId(p1, n1) == FormatId(p2, n2)
    ensures p1 == p2 && n1 == n2
  {
    ParseFormatId(p1, n1);
    ParseFormatId(p2, n2);
  }
}
