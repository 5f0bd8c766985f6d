/** Recognising a pin `name==version` and deciding its replacement
    (update_dependency). */
module Pins {
  import opened Types

  /** The separator `==` starts at index i of s. */
  predicate SepAt(s: string, i: int) {
    0 <= i && i + 1 < |s| && s[i] == '=' && s[i + 1] == '='
  }

  /** Python's `"==" in s`. */
  predicate ContainsSep(s: string) {
    exists i :: 0 <= i < |s| && SepAt(s, i)
  }

  /** The index of the first `==` in s, if any. */
  function FirstSep(s: string): (r: Option<nat>)
    ensures r.None? <==> !ContainsSep(s)
    ensures r.Some? ==> SepAt(s, r.value) && forall j :: 0 <= j < r.value ==> !SepAt(s, j)
  {
    if |s| < 2 then None
    else if s[0] == '=' && s[1] == '=' then
      assert SepAt(s, 0);
      Some(0)
    else
      var rest := FirstSep(s[1..]);
      assert forall j :: 1 <= j ==> (SepAt(s, j) <==> SepAt(s[1..], j - 1));
      match rest
      case None => None
      case Some(i) => assert SepAt(s, i + 1); Some(i + 1)
  }

  datatype Pin = Pin(name: string, version: string)

  /** f"{name}=={version}" */
  function PinText(p: Pin): string {
    p.name + "==" + p.version
  }

  /** A name that `str.partition("==")` gives back: it holds no `==` and
      does not end in `=` (else the first `==` would start inside it). */
  predicate PartitionName(n: string) {
    forall j :: 0 <= j < |n| ==> !SepAt(n + "=", j)
  }

  /** `s.partition("==")`, for a string that contains the separator. */
  function ParsePin(s: string): (r: Option<Pin>)
    ensures r.None? <==> !ContainsSep(s)
    ensures r.Some? ==> PinText(r.value) == s && PartitionName(r.value.name)
    ensures r.Some? ==> !ContainsSep(r.value.name)
  {
    match FirstSep(s)
    case None => None
    case Some(i) =>
      var p := Pin(s[..i], s[i + 2..]);
      assert PinText(p) == s;
      assert forall j :: 0 <= j < i ==> (SepAt(p.name + "=", j) <==> SepAt(s, j)) by {
        assert (p.name + "=")[..] == s[..i + 1];
      }
      assert forall j :: SepAt(p.name, j) ==> SepAt(s, j);
      Some(p)
  }

  /** Partition is exactly inverted by rendering: a pin renders to a string
      that parses back to it iff its name is one partition can produce. */
  lemma ParsePinRoundTrip(p: Pin)
    ensures ParsePin(PinText(p)) == Some(p) <==> PartitionName(p.name)
  {
    var s := PinText(p);
    var n := |p.name|;
    assert SepAt(s, n);
    assert forall j :: 0 <= j < n ==> (SepAt(p.name + "=", j) <==> SepAt(s, j)) by {
      assert (p.name + "=") == s[..n + 1];
    }
    if PartitionName(p.name) {
      var k := FirstSep(s).value;
      assert k == n;
      assert s[..n] == p.name && s[n + 2..] == p.version;
    }
  }

  /** update_dependency: Ok(None) when there is nothing to do, Ok(Some(pin))
      with the replacement pin, Err when the package is unknown. */
  function UpdateDependency(current: string, versions: VersionMap): (r: Result<Option<string>>)
    // no separator: inert, never an error
    ensures !ContainsSep(current) ==> r == Ok(None)
    // the lookup fails exactly for a pin whose name is not monitored
    ensures r.Err? <==> ContainsSep(current) && ParsePin(current).value.name !in versions
    ensures r.Err? ==> r.error == PackageNotFound(ParsePin(current).value.name)
    // nothing to do exactly when it is not a pin or the pinned version is current
    ensures r == Ok(None) <==>
              !ContainsSep(current) ||
              (var p := ParsePin(current).value; p.name in versions && versions[p.name] == p.version)
    // a produced update keeps the name, carries the new version and differs from the input
    ensures r.Ok? && r.value.Some? ==>
              var p := ParsePin(current).value;
              p.name in versions && p.version != versions[p.name] &&
              r.value.value == PinText(Pin(p.name, versions[p.name])) &&
              r.value.value != current
  {
    match ParsePin(current)
    case None => Ok(None)
    case Some(p) =>
      if p.name !in versions then Err(PackageNotFound(p.name))
      else if p.version == versions[p.name] then Ok(None)
      else
        var updated := PinText(Pin(p.name, versions[p.name]));
        assert updated[|p.name| + 2..] == versions[p.name];
        assert current[|p.name| + 2..] == p.version;
        Ok(Some(updated))
  }

  /** Re-planning a rewritten pin finds nothing left to do. */
  lemma ReplanIsNoOp(current: string, versions: VersionMap, updated: string)
    requires UpdateDependency(current, versions) == Ok(Some(updated))
    ensures UpdateDependency(updated, versions) == Ok(None)
  {
    var p := ParsePin(current).value;
    var q := Pin(p.name, versions[p.name]);
    ParsePinRoundTrip(q);
    assert ParsePin(updated) == Some(q);
  }

  /** The produced pin is the only pin the current one can turn into: same
      name, the version the map recommends. */
  lemma UpdatedPinParses(current: string, versions: VersionMap, updated: string)
    requires UpdateDependency(current, versions) == Ok(Some(updated))
    ensures ParsePin(updated).Some?
    ensures ParsePin(updated).value.name == ParsePin(current).value.name
    ensures ParsePin(updated).value.version == versions[ParsePin(current).value.name]
  {
    var p := ParsePin(current).value;
    ParsePinRoundTrip(Pin(p.name, versions[p.name]));
  }
}
