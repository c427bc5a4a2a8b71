/** The rows of the observing schedule, as the script holds them in Python dictionaries. */
module Records {
  import opened Wrappers
  import opened Timestamps

  /**
    * A field value: the text the parser cut out of a line, or the
    * `datetime` the normaliser stores in place of the start time.
    */
  datatype Value = Text(s: string) | Time(t: Timestamp)

  /** One schedule row: a `dict` from column title to value. */
  type Record = map<string, Value>

  /**
    * `dict(zip(keys, vals))` over the first `n` pairs: the keys are the
    * first `n` titles and every value is one of the first `n` texts.
    */
  function ZipPrefix(keys: seq<string>, vals: seq<string>, n: nat): (m: Record)
    requires n <= |keys| && n <= |vals|
    ensures m.Keys == set k | 0 <= k < n :: keys[k]
    ensures forall key :: key in m ==> m[key].Text? && m[key].s in vals[..n]
    decreases n
  {
    if n == 0 then map[]
    else
      var m := ZipPrefix(keys, vals, n - 1);
      assert vals[..n - 1] <= vals[..n];
      m[keys[n - 1] := Text(vals[n - 1])]
  }

  /**
    * A key maps to the text paired with its last occurrence: a later pair
    * with the same key overwrites an earlier one.
    */
  lemma {:induction false} ZipPrefixLast(keys: seq<string>, vals: seq<string>, n: nat, k: nat)
    requires n <= |keys| && n <= |vals| && k < n
    requires forall j :: k < j < n ==> keys[j] != keys[k]
    ensures keys[k] in ZipPrefix(keys, vals, n) && ZipPrefix(keys, vals, n)[keys[k]] == Text(vals[k])
    decreases n
  {
    if k < n - 1 {
      ZipPrefixLast(keys, vals, n - 1, k);
    }
  }

  /** `dict(zip(keys, vals))`: `zip` stops at the shorter sequence. */
  function Zip(keys: seq<string>, vals: seq<string>): Record
  {
    ZipPrefix(keys, vals, Min(|keys|, |vals|))
  }

  /** In `dict(zip(keys, vals))`, a key that is not repeated later maps to its own value. */
  lemma ZipLast(keys: seq<string>, vals: seq<string>, k: nat)
    requires k < |keys| && k < |vals|
    requires forall j :: k < j < |keys| ==> keys[j] != keys[k]
    ensures keys[k] in Zip(keys, vals) && Zip(keys, vals)[keys[k]] == Text(vals[k])
  {
    ZipPrefixLast(keys, vals, Min(|keys|, |vals|), k);
  }
}
