/**
 * The address shortener of the wallet button: the first six characters,
 * "...", and the last four, built from two JavaScript `slice` calls.
 */
module AddressFormat {

  function Min(a: nat, b: nat): nat
  {
    if a <= b then a else b
  }

  /** A `slice` position: negative positions count back from the end; all are clamped to `[0, n]`. */
  function SlicePosition(i: int, n: nat): (k: nat)
    ensures k <= n
    ensures 0 <= i <= n ==> k == i
    ensures i < 0 && n + i >= 0 ==> k == n + i
    ensures i > n ==> k == n
    ensures n + i < 0 ==> k == 0
  {
    if i < 0 then (if n + i < 0 then 0 else n + i)
    else if i > n then n
    else i
  }

  /** JavaScript's `s.slice(begin, end)`. */
  function Slice(s: string, begin: int, end: int): (r: string)
    ensures SlicePosition(begin, |s|) + |r| <= |s|
    ensures forall k :: 0 <= k < |r| ==> r[k] == s[SlicePosition(begin, |s|) + k]
    ensures |r| == 0 <==> SlicePosition(end, |s|) <= SlicePosition(begin, |s|)
    ensures SlicePosition(begin, |s|) < SlicePosition(end, |s|) ==>
      |r| == SlicePosition(end, |s|) - SlicePosition(begin, |s|)
  {
    var b, e := SlicePosition(begin, |s|), SlicePosition(end, |s|);
    if b < e then s[b..e] else ""
  }

  /** JavaScript's `s.slice(begin)`: up to the end of the string. */
  function SliceFrom(s: string, begin: int): (r: string)
    ensures r == s[SlicePosition(begin, |s|)..]
    ensures begin <= 0 && begin + |s| <= 0 ==> r == s
  {
    Slice(s, begin, |s|)
  }

  /**
   * `formatAddress(addr)`: the result starts with the first `min(6, n)`
   * characters of `addr`, continues with "...", and ends with the last
   * `min(4, n)` characters; so an address of six characters or more, such as
   * a 42-character `0x` address, always shortens to 13 characters.
   */
  function FormatAddress(addr: string): (r: string)
    ensures |r| == Min(6, |addr|) + 3 + Min(4, |addr|)
    ensures r[..Min(6, |addr|)] == addr[..Min(6, |addr|)]
    ensures r[Min(6, |addr|)..Min(6, |addr|) + 3] == "..."
    ensures r[|r| - Min(4, |addr|)..] == addr[|addr| - Min(4, |addr|)..]
    ensures |addr| >= 6 ==> |r| == 13
  {
    Slice(addr, 0, 6) + "..." + SliceFrom(addr, -4)
  }
}
