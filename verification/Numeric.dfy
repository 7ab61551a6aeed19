/** Numbers the modules share: 64-bit words as bounded naturals, absolute values, clamps and rates. */
module Numeric {
  const TWO64 := 0x1_0000_0000_0000_0000

  type uint64 = n: nat | n < TWO64

  function Abs(x: real): real {
    if x < 0.0 then -x else x
  }

  /** std::clamp */
  function Clamp(x: real, lo: real, hi: real): (r: real)
    requires lo <= hi
    ensures lo <= r <= hi
    ensures lo <= x <= hi ==> r == x
  {
    if x < lo then lo else if hi < x then hi else x
  }

  /** Units per second from a cumulative counter; zero when it went back or no time passed. */
  function Rate(current: nat, previous: nat, seconds: real): real {
    if seconds > 0.0 && current >= previous then (current - previous) as real / seconds else 0.0
  }
}
