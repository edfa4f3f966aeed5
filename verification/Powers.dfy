/** Powers of an integer. */
module Powers {

  function Power(b: int, n: nat): int {
    if n == 0 then 1 else b * Power(b, n - 1)
  }
}
