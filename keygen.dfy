/**
 * The element key generator: a process-wide map from a requested key to
 * the number of times it was handed out. The first request returns the key
 * itself, later ones append the separator and a sequence number.
 */
module KeyGen {
  import opened Values
  import opened ElementKeys

  /** How often `key` was handed out since it was last reset. */
  function Issued(counts: map<string, nat>, key: string): nat {
    if key in counts then counts[key] else 0
  }

  /** The key returned by the request made when `key` had been handed out `n` times. */
  function KeyName(key: string, separator: string, n: nat): (k: string)
    ensures n == 0 ==> k == key
    ensures n > 0 ==> |k| > |key| && k[..|key|] == key
  {
    if n == 0 then key else key + separator + NatToString(n)
  }

  /** The keys that `n` successive requests for `key` return. */
  function Requests(counts: map<string, nat>, key: string, separator: string, n: nat): (keys: seq<string>)
    ensures |keys| == n
    decreases n
  {
    if n == 0 then []
    else [KeyName(key, separator, Issued(counts, key))]
         + Requests(counts[key := Issued(counts, key) + 1], key, separator, n - 1)
  }

  /** The i-th of successive requests carries the count it was made at. */
  lemma {:induction false} RequestsAt(counts: map<string, nat>, key: string, separator: string, n: nat, i: nat)
    requires i < n
    ensures Requests(counts, key, separator, n)[i] == KeyName(key, separator, Issued(counts, key) + i)
    decreases n
  {
    if i > 0 {
      var next := counts[key := Issued(counts, key) + 1];
      RequestsAt(next, key, separator, n - 1, i - 1);
      assert Issued(next, key) == Issued(counts, key) + 1;
    }
  }

  /**
   * From a fresh or reset key, the first request returns the key itself and
   * request number m (m >= 2) returns key + separator + str(m - 1).
   */
  lemma FreshRequests(counts: map<string, nat>, key: string, separator: string, n: nat, i: nat)
    requires key !in counts
    requires i < n
    ensures i == 0 ==> Requests(counts, key, separator, n)[i] == key
    ensures i > 0 ==> Requests(counts, key, separator, n)[i] == key + separator + NatToString(i)
  {
    RequestsAt(counts, key, separator, n, i);
  }

  /** Different counts give different keys. */
  lemma KeyNameInjective(key: string, separator: string, a: nat, b: nat)
    requires KeyName(key, separator, a) == KeyName(key, separator, b)
    ensures a == b
  {
    if a > 0 && b > 0 {
      var prefix := key + separator;
      assert KeyName(key, separator, a) == prefix + NatToString(a);
      assert KeyName(key, separator, b) == prefix + NatToString(b);
      assert NatToString(a) == KeyName(key, separator, a)[|prefix|..];
      assert NatToString(b) == KeyName(key, separator, b)[|prefix|..];
      NatToStringInjective(a, b);
    }
  }

  /** Successive requests for one key never hand out the same key twice. */
  lemma RequestsDistinct(counts: map<string, nat>, key: string, separator: string, n: nat, i: nat, j: nat)
    requires i < j < n
    ensures Requests(counts, key, separator, n)[i] != Requests(counts, key, separator, n)[j]
  {
    RequestsAt(counts, key, separator, n, i);
    RequestsAt(counts, key, separator, n, j);
    if KeyName(key, separator, Issued(counts, key) + i) == KeyName(key, separator, Issued(counts, key) + j) {
      KeyNameInjective(key, separator, Issued(counts, key) + i, Issued(counts, key) + j);
    }
  }

  /** With the default ':' separator, `strip` recovers a colon-free key from any generated key. */
  lemma StripGeneratedKey(key: string, n: nat)
    requires ':' !in key
    ensures Strip(KeyName(key, ":", n)) == key
  {
    var k := KeyName(key, ":", n);
    var r := Strip(k);
    if n > 0 {
      assert k == key + ":" + NatToString(n);
      assert k[|key|] == ':';
      assert forall i :: 0 <= i < |key| ==> k[i] == key[i];
    }
  }

  /**
   * Uniqueness holds per requested key only: two different requested keys
   * can be handed out the same name, as the second request for "a" and the
   * first request for "a:1" are.
   */
  lemma KeysOfDifferentRequestsCanCollide()
    ensures exists a: string, b: string, m: nat, n: nat :: a != b && KeyName(a, ":", m) == KeyName(b, ":", n)
  {
    assert NatToString(1) == "1";
    assert KeyName("a", ":", 1) == KeyName("a:1", ":", 0);
  }

  class KeyGenerator {
    /** The global `_keygen` dictionary. */
    var counts: map<string, nat>

    constructor ()
      ensures counts == map[]
    {
      counts := map[];
    }

    /** `keygen(key, separator)`. */
    method Generate(key: string, separator: string) returns (k: string)
      modifies this
      ensures k == KeyName(key, separator, Issued(old(counts), key))
      ensures counts == old(counts)[key := Issued(old(counts), key) + 1]
    {
      if key !in counts {
        counts := counts[key := 0];
      }
      k := key;
      if counts[key] > 0 {
        k := k + separator + NatToString(counts[key]);
      }
      counts := counts[key := counts[key] + 1];
    }

    /** `keygen_reset(key)`: `del _keygen[key]`, which raises KeyError for an unknown key. */
    method Reset(key: string) returns (r: Result<()>)
      modifies this
      ensures r.Ok? == (key in old(counts))
      ensures r.Err? ==> r.error == MissingKey(key)
      ensures counts == old(counts) - {key}
    {
      if key in counts {
        counts := counts - {key};
        r := Ok(());
      } else {
        r := Err(MissingKey(key));
      }
    }

    /**
     * `keygen_reset_from_form(frm)`: reset the key of every mapped element in
     * turn; the first unknown key raises, after the earlier ones were reset.
     */
    method ResetAllOf(keys: seq<string>) returns (r: Result<()>)
      modifies this
      ensures r.Ok? == (forall k :: 0 <= k < |keys| ==> keys[k] in old(counts) - set j | 0 <= j < k :: keys[j])
      ensures r.Ok? ==> counts == old(counts) - set k | 0 <= k < |keys| :: keys[k]
      ensures r.Err? ==>
        exists i :: (0 <= i < |keys| && r.error == MissingKey(keys[i])
                     && keys[i] !in old(counts) - (set j | 0 <= j < i :: keys[j])
                     && (forall k :: 0 <= k < i ==> keys[k] in old(counts) - (set j | 0 <= j < k :: keys[j]))
                     && counts == old(counts) - (set j | 0 <= j < i :: keys[j]))
    {
      var i := 0;
      while i < |keys|
        invariant 0 <= i <= |keys|
        invariant counts == old(counts) - set j | 0 <= j < i :: keys[j]
        invariant forall k :: 0 <= k < i ==> keys[k] in old(counts) - set j | 0 <= j < k :: keys[j]
      {
        assert (set j | 0 <= j < i + 1 :: keys[j]) == (set j | 0 <= j < i :: keys[j]) + {keys[i]};
        if keys[i] !in counts {
          return Err(MissingKey(keys[i]));
        }
        counts := counts - {keys[i]};
        i := i + 1;
      }
      return Ok(());
    }

    /** `keygen_reset_all()`. */
    method ResetEverything()
      modifies this
      ensures counts == map[]
    {
      counts := map[];
    }
  }
}
