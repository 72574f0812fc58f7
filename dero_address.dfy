/** The miner's start-up check of the reward address (`address::validate`). */
module DeroAddress {
  import opened Wrappers
  import RpcAddress

  const REASON_PREFIX: string := "invalid address, reason: "

  /**
   * `address::validate`: Ok exactly when `Address::from_string` succeeds;
   * otherwise its error text behind "invalid address, reason: ". A panic in
   * `from_string` is a panic here too.
   */
  function Validate(p: RpcAddress.Primitives, s: string): (r: Outcome<Result<(), string>>)
    ensures r.Panic? <==> RpcAddress.FromString(p, s).Panic?
    ensures r == Return(Ok(())) <==> RpcAddress.WellFormed(p, s)
    ensures r.Return? && r.value.Err? ==>
              var e := RpcAddress.FromString(p, s).value.error;
              && RpcAddress.FromString(p, s) == Return(Err(e))
              && r.value.error == REASON_PREFIX + RpcAddress.Message(e)
              && r.value.error[..|REASON_PREFIX|] == REASON_PREFIX
  {
    match RpcAddress.FromString(p, s)
    case Panic => Panic
    case Return(Ok(_)) => Return(Ok(()))
    case Return(Err(e)) => Return(Err(REASON_PREFIX + RpcAddress.Message(e)))
  }
}
