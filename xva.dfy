/**
 * The kinds of valuation adjustment the simulation can be asked for.
 * The enumeration itself is declared in a header that is not part of this
 * model; its five values are the ones `Utils::parse_type` produces.
 */
module Xva {

  datatype XVA = CVA | DVA | FVA | MVA | KVA

  /** The exact token that names a kind on the command line. */
  function Name(x: XVA): string
  {
    match x
    case CVA => "CVA"
    case DVA => "DVA"
    case FVA => "FVA"
    case MVA => "MVA"
    case KVA => "KVA"
  }

  /** The tokens naming the given kinds, in order. */
  function Names(ks: seq<XVA>): (r: seq<string>)
    ensures |r| == |ks|
    ensures forall i :: 0 <= i < |ks| ==> r[i] == Name(ks[i])
  {
    seq(|ks|, i requires 0 <= i < |ks| => Name(ks[i]))
  }

}
