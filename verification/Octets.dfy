/** Numbers below 256 as octets. */
module Octets {

  lemma ByteBack(n: nat)
    requires n < 256
    ensures (n as bv8) as nat == n
  {
  }
}
