/** What the models share: optional values, octets, stream results, powers of two and plain
    sequences. */
module Common {

  datatype Option<T> = None | Some(value: T)

  type Octet = b: int | 0 <= b < 256

  datatype StreamResult = SR_SUCCESS | SR_BLOCK | SR_EOS | SR_ERROR

  /** A log of answers has grown and now ends with this one. */
  predicate Answered<T(==)>(before: seq<T>, after: seq<T>, last: T) {
    before < after && after[|after| - 1] == last
  }

  function Pow2(k: nat): nat {
    if k == 0 then 1 else 2 * Pow2(k - 1)
  }

  function Repeat<T>(x: T, n: nat): (s: seq<T>)
    ensures |s| == n && forall i :: 0 <= i < n ==> s[i] == x
  {
    if n == 0 then [] else Repeat(x, n - 1) + [x]
  }

  function Zeros(n: nat): (s: seq<bool>)
    ensures |s| == n && forall i :: 0 <= i < n ==> !s[i]
  {
    Repeat(false, n)
  }

  function Concat<T>(pieces: seq<seq<T>>): seq<T> {
    if pieces == [] then [] else pieces[0] + Concat(pieces[1..])
  }

  function Digit(d: nat): (c: char)
    requires d < 10
    ensures c == "0123456789"[d]
  {
    '0' + d as char
  }

  function Decimal(n: nat): (s: string)
    ensures |s| > 0
  {
    if n < 10 then [Digit(n)] else Decimal(n / 10) + [Digit(n % 10)]
  }

  /** The order of std::string. */
  predicate Below(a: string, b: string) {
    if b == "" then false
    else if a == "" then true
    else a[0] < b[0] || (a[0] == b[0] && Below(a[1..], b[1..]))
  }

  /** The texts agree up to place k, where the first one ends or has the smaller character. */
  lemma {:induction false} BelowAt(a: string, b: string, k: nat)
    requires k <= |a| && k < |b| && a[..k] == b[..k] && (k == |a| || a[k] < b[k])
    ensures Below(a, b)
    decreases k
  {
    if k > 0 {
      assert a[0] == a[..k][0] && b[0] == b[..k][0];
      assert a[1..][..k - 1] == a[..k][1..] && b[1..][..k - 1] == b[..k][1..];
      BelowAt(a[1..], b[1..], k - 1);
    }
  }
}
