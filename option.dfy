/** The C sources use NULL pointers for "no string"; the model uses Option. */
module Opt {

  datatype Option<+T> = None | Some(value: T)

  /** The strings held in the slots before the first NULL (all of them when there is none). */
  function Live(buf: seq<Option<string>>): (ts: seq<string>)
    ensures |ts| <= |buf|
    ensures forall j :: 0 <= j < |ts| ==> buf[j] == Some(ts[j])
    ensures |ts| < |buf| ==> buf[|ts|] == None
  {
    if buf == [] || buf[0] == None then [] else [buf[0].value] + Live(buf[1..])
  }
}
