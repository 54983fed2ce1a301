/**
 The "Activate License" handler of the popup. The key is not checked with
 the licensing service: a trimmed key longer than ten characters is accepted
 and stored, a shorter non-empty one is refused, an empty one is ignored.
 */
module License {
  import opened Wrappers
  import opened JsText

  /** A key is accepted when its trimmed length exceeds this. */
  const MinKeyLength := 10

  /** The popup's `isLicensed` flag and the stored `licenseKey`. */
  datatype LicenseState = LicenseState(licensed: bool, storedKey: Option<string>)

  /** How a click ended: nothing happened, the key was accepted and stored,
      or the "Invalid license key" alert was shown. */
  datatype Activation = Ignored | Accepted | Rejected

  /** One click on the activate button with `keyField` in the key input. */
  function Activate(state: LicenseState, keyField: string): (r: (LicenseState, Activation))
    ensures r.1 == Ignored <==> Trim(keyField) == []
    ensures r.1 == Accepted <==> |Trim(keyField)| > MinKeyLength
    ensures r.1 == Accepted ==> r.0 == LicenseState(true, Some(Trim(keyField)))
    ensures r.1 != Accepted ==> r.0 == state
  {
    var key := Trim(keyField);
    if key == [] then (state, Ignored)
    else if |key| > MinKeyLength then (LicenseState(true, Some(key)), Accepted)
    else (state, Rejected)
  }

  /** A sequence of clicks, one per entered key. */
  function ActivateAll(state: LicenseState, keys: seq<string>): LicenseState
    decreases |keys|
  {
    if keys == [] then state else ActivateAll(Activate(state, keys[0]).0, keys[1..])
  }

  /** Nothing ever revokes a license: after any sequence of clicks the popup
      is licensed exactly when it was licensed before or one of the entered
      keys was longer than ten characters once trimmed. */
  lemma {:induction false} LicensedIff(state: LicenseState, keys: seq<string>)
    ensures ActivateAll(state, keys).licensed <==>
      state.licensed || exists i :: 0 <= i < |keys| && |Trim(keys[i])| > MinKeyLength
    decreases |keys|
  {
    if keys != [] {
      var next := Activate(state, keys[0]).0;
      LicensedIff(next, keys[1..]);
      if exists i :: 0 <= i < |keys| && |Trim(keys[i])| > MinKeyLength {
        var i :| 0 <= i < |keys| && |Trim(keys[i])| > MinKeyLength;
        if i > 0 {
          assert keys[1..][i - 1] == keys[i];
        }
      }
      forall i | 0 <= i < |keys[1..]| && |Trim(keys[1..][i])| > MinKeyLength
        ensures exists j :: 0 <= j < |keys| && |Trim(keys[j])| > MinKeyLength
      {
        assert keys[1..][i] == keys[i + 1];
      }
    }
  }
}
