/** Choosing the capture device: the first one whose name mentions a Snowball microphone. */
module Device {
  import opened Wrappers
  import opened Text

  const NEEDLE: string := "snowball"

  datatype DeviceError = DeviceNotFound

  /** The device name, lower-cased, contains "snowball". */
  predicate IsSnowball(name: string)
  {
    Contains(Lower(name), NEEDLE)
  }

  /**
   * Scans the device names in index order and stops at the first Snowball;
   * reports `DeviceNotFound` when the scan runs off the end.
   */
  method FindDeviceIndex(names: seq<string>) returns (r: Result<nat, DeviceError>)
    ensures r.Ok? <==> exists i :: 0 <= i < |names| && IsSnowball(names[i])
    ensures r.Ok? ==> r.value < |names| && IsSnowball(names[r.value])
    ensures r.Ok? ==> forall j :: 0 <= j < r.value ==> !IsSnowball(names[j])
  {
    var i := 0;
    while i < |names|
      invariant 0 <= i <= |names|
      invariant forall j :: 0 <= j < i ==> !IsSnowball(names[j])
    {
      if IsSnowball(names[i]) {
        return Ok(i);
      }
      i := i + 1;
    }
    return Err(DeviceNotFound);
  }

  /**
   * A name matches exactly when some run of eight consecutive characters in it
   * spells "snowball" in any mix of letter case.
   */
  lemma SnowballIff(name: string)
    ensures IsSnowball(name) <==>
      exists k: nat :: k + |NEEDLE| <= |name| && Lower(Window(name, k, |NEEDLE|)) == NEEDLE
  {
    var n := Lower(name);
    ContainsIff(n, NEEDLE);
    forall k: nat | k + |NEEDLE| <= |name|
      ensures Lower(Window(name, k, |NEEDLE|)) == Window(n, k, |NEEDLE|)
    {
      LowerSlice(name, k, k + |NEEDLE|);
    }
  }

  /** The word may sit anywhere in the name, in any letter case. */
  lemma SnowballAnywhere(prefix: string, word: string, suffix: string)
    requires Lower(word) == NEEDLE
    ensures IsSnowball(prefix + word + suffix)
  {
    var name := prefix + word + suffix;
    assert Window(name, |prefix|, |NEEDLE|) == word;
    SnowballIff(name);
  }

  /** Only letter case is ignored: a name and its lower-cased form match alike. */
  lemma SnowballIgnoresCase(name: string)
    ensures IsSnowball(name) <==> IsSnowball(Lower(name))
  {
    LowerIdempotent(name);
  }

  /** Some device names. */
  lemma SnowballNames()
    ensures IsSnowball("Blue Snowball: USB Audio (hw:1,0)")
    ensures IsSnowball("SNOWBALL")
    ensures !IsSnowball("Snow Ball")
  {
    assert NEEDLE <= Lower("Blue Snowball: USB Audio (hw:1,0)")[5..];
    assert NEEDLE <= Lower("SNOWBALL")[0..];
    var n := Lower("Snow Ball");
    forall k | 0 <= k <= |n| - |NEEDLE|
      ensures !(NEEDLE <= n[k..])
    {
      assert n[k..][0] != NEEDLE[0] || n[k..][4] != NEEDLE[4];
    }
  }
}
