/** Building a map from a sequence of optional writes, later writes to the same
    key replacing earlier ones: what a JavaScript `forEach` that assigns
    `object[key] = value` for some of its items leaves behind. */
module Assoc {
  import opened Options

  predicate Writes<V>(w: Option<(string, V)>, k: string) {
    w.Some? && w.value.0 == k
  }

  /** The write at `i` is the last one to key `k`. */
  predicate LastWrite<V>(ws: seq<Option<(string, V)>>, i: int, k: string) {
    0 <= i < |ws| && Writes(ws[i], k) && forall j :: i < j < |ws| ==> !Writes(ws[j], k)
  }

  /** Applies the writes in order to an empty map. */
  function Collect<V>(ws: seq<Option<(string, V)>>): map<string, V> {
    if ws == [] then map[]
    else
      var m := Collect(ws[..|ws| - 1]);
      match ws[|ws| - 1]
      case None => m
      case Some(kv) => m[kv.0 := kv.1]
  }

  /** A key is in the collected map exactly when some write targets it. */
  lemma {:induction false} CollectDomain<V>(ws: seq<Option<(string, V)>>, k: string)
    ensures k in Collect(ws) <==> exists i :: 0 <= i < |ws| && Writes(ws[i], k)
  {
    if ws != [] {
      var prefix := ws[..|ws| - 1];
      CollectDomain(prefix, k);
      assert forall i :: 0 <= i < |prefix| ==> prefix[i] == ws[i];
      if k in Collect(ws) && !Writes(ws[|ws| - 1], k) {
        var i :| 0 <= i < |prefix| && Writes(prefix[i], k);
        assert Writes(ws[i], k);
      }
    }
  }

  /** The collected value of a key is the one its last write carries. */
  lemma {:induction false} CollectLastWins<V>(ws: seq<Option<(string, V)>>, i: int, k: string)
    requires LastWrite(ws, i, k)
    ensures k in Collect(ws) && Collect(ws)[k] == ws[i].value.1
  {
    var prefix := ws[..|ws| - 1];
    if i < |ws| - 1 {
      assert forall j :: 0 <= j < |prefix| ==> prefix[j] == ws[j];
      assert LastWrite(prefix, i, k);
      CollectLastWins(prefix, i, k);
    }
  }
}
