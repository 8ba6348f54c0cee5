/** The field-value pairs that every store is given and gives back (include/db.h). */
module Fields {
  type Field = (string, string)

  /** Places in a list of `n`, each once and in order. */
  ghost predicate Places(at: seq<nat>, n: nat) {
    && (forall i :: 0 <= i < |at| ==> at[i] < n)
    && (forall i, j :: 0 <= i < j < |at| ==> at[i] < at[j])
  }

  lemma OneMorePlace(at: seq<nat>, n: nat)
    requires Places(at, n)
    ensures Places(at, n + 1) && Places(at + [n], n + 1)
    ensures forall j :: j in at + [n] <==> j in at || j == n
    ensures n !in at
  {
  }
}
