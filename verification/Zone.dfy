/** The search for the zone a domain name belongs to. */
module Zone {
  import opened Prelude

  /** A row of the zone table; its name is its key. */
  datatype Data = Data(id: nat, isEnum: bool, dotsMax: nat, exPeriodMin: nat, exPeriodMax: nat, validationPeriod: nat)

  datatype Error = MissingZoneConfiguration | UnknownZoneInFqdn(fqdn: string)

  function LowerChar(c: char): char {
    if 'A' <= c <= 'Z' then (c as int + 32) as char else c
  }

  function Lower(s: string): (l: string)
    ensures |l| == |s| && forall i :: 0 <= i < |s| ==> l[i] == LowerChar(s[i])
  {
    seq(|s|, i requires 0 <= i < |s| => LowerChar(s[i]))
  }

  /** `domain` is a nonempty text, a dot, and the name of the zone. */
  ghost predicate InZone(domain: string, zone: string) {
    exists prefix: string :: prefix != "" && domain == prefix + "." + zone
  }

  /** Of the zones the name belongs to, `zone` is the only longest one. */
  ghost predicate IsLongestZone(zones: map<string, Data>, domain: string, zone: string) {
    && InZone(domain, zone)
    && forall other :: other in zones && InZone(domain, other) && other != zone ==> |other| < |zone|
  }

  /** The rows of the query for the names of all zones, longest first. */
  ghost predicate LongestFirst(zones: map<string, Data>, rows: seq<string>) {
    && (forall z :: z in zones <==> z in rows)
    && forall i, j :: 0 <= i < j < |rows| ==> |rows[i]| >= |rows[j]|
  }

  predicate OccursAt(s: string, pattern: string, i: int) {
    0 <= i && i + |pattern| <= |s| && s[i..i + |pattern|] == pattern
  }

  /** std::string::find. */
  method FindFrom(s: string, pattern: string, from: nat) returns (pos: Option<nat>)
    ensures pos.Some? ==> from <= pos.value && OccursAt(s, pattern, pos.value)
    ensures pos.Some? ==> forall i :: from <= i < pos.value ==> !OccursAt(s, pattern, i)
    ensures pos.None? ==> forall i :: from <= i ==> !OccursAt(s, pattern, i)
  {
    var i := from;
    while i + |pattern| <= |s|
      invariant from <= i
      invariant forall k :: from <= k < i ==> !OccursAt(s, pattern, k)
    {
      if OccursAt(s, pattern, i) {
        return Some(i);
      }
      i := i + 1;
    }
    return None;
  }

  /** get_zone: the row whose name is the given name in lower case. */
  function GetZone(zones: map<string, Data>, name: string): Option<Data> {
    if Lower(name) in zones then Some(zones[Lower(name)]) else None
  }

  /** find_zone_in_fqdn; `rows` is what the query for the zone names returns. */
  method FindZoneInFqdn(zones: map<string, Data>, rows: seq<string>, fqdn: string) returns (r: Result<Data, Error>)
    requires LongestFirst(zones, rows)
    ensures zones == map[] <==> r == Failure(MissingZoneConfiguration)
    ensures r.Success? ==> exists z :: z in zones && r.value == zones[z] && IsLongestZone(zones, Lower(fqdn), z)
    ensures zones != map[] && r.Failure? ==> r.error == UnknownZoneInFqdn(fqdn)
    ensures r.Success? <==> exists z :: z in zones && InZone(Lower(fqdn), z)
  {
    var domain := Lower(fqdn);
    if |rows| == 0 {
      assert zones == map[];
      return Failure(MissingZoneConfiguration);
    }
    assert rows[0] in zones;
    var i := 0;
    while i < |rows|
      invariant i <= |rows|
      invariant forall k :: 0 <= k < i ==> !InZone(domain, rows[k])
    {
      var dotZone := "." + rows[i];
      var from := |domain| - |dotZone|;
      SuffixTest(domain, rows[i]);
      if from >= 1 {
        var found := FindFrom(domain, dotZone, from);
        if found.Some? {
          assert InZone(domain, rows[i]);
          MatchedIsLower(fqdn, rows[i]);
          assert rows[i] in rows;
          LongestIsUnique(domain, rows, i);
          var zone := GetZone(zones, rows[i]);
          return if zone.Some? then Success(zone.value) else Failure(UnknownZoneInFqdn(fqdn));
        }
        assert !OccursAt(domain, dotZone, from);
      }
      i := i + 1;
    }
    return Failure(UnknownZoneInFqdn(fqdn));
  }

  /** Belonging to a zone is a test of the last characters, at an offset of at least one. */
  lemma SuffixTest(domain: string, zone: string)
    ensures InZone(domain, zone) <==> |domain| - (|zone| + 1) >= 1 && domain[|domain| - (|zone| + 1)..] == "." + zone
  {
    var from := |domain| - (|zone| + 1);
    if InZone(domain, zone) {
      var prefix :| prefix != "" && domain == prefix + "." + zone;
      assert |prefix| == from;
      assert domain == prefix + ("." + zone);
    }
    if from >= 1 && domain[from..] == "." + zone {
      assert domain == domain[..from] + "." + zone;
    }
  }

  /** A zone that matches is in lower case, so that get_zone finds the very row that matched. */
  lemma MatchedIsLower(fqdn: string, zone: string)
    requires InZone(Lower(fqdn), zone)
    ensures Lower(zone) == zone
  {
    var domain := Lower(fqdn);
    SuffixTest(domain, zone);
    var from := |domain| - (|zone| + 1);
    forall i | 0 <= i < |zone|
      ensures LowerChar(zone[i]) == zone[i]
    {
      assert zone[i] == domain[from..][i + 1];
    }
  }

  /** Of two zones that match, the one that comes later in the list is shorter. */
  lemma LongestIsUnique(domain: string, rows: seq<string>, i: nat)
    requires i < |rows| && InZone(domain, rows[i])
    requires forall k, l :: 0 <= k < l < |rows| ==> |rows[k]| >= |rows[l]|
    requires forall k :: 0 <= k < i ==> !InZone(domain, rows[k])
    ensures forall other :: other in rows && InZone(domain, other) && other != rows[i] ==> |other| < |rows[i]|
  {
    forall other | other in rows && InZone(domain, other) && other != rows[i]
      ensures |other| < |rows[i]|
    {
      var k :| 0 <= k < |rows| && rows[k] == other;
      if |other| == |rows[i]| {
        SameLengthSameZone(domain, other, rows[i]);
      }
    }
  }

  lemma SameLengthSameZone(domain: string, a: string, b: string)
    requires InZone(domain, a) && InZone(domain, b) && |a| == |b|
    ensures a == b
  {
    SuffixTest(domain, a);
    SuffixTest(domain, b);
    assert a == ("." + a)[1..];
  }
}
