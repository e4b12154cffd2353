/** Passport processing (src/day_four.rs): consecutive non-empty lines form one record of
    space-separated `key:value` fields; a record is valid when it holds the seven
    mandatory keys. */
module DayFour {
  import opened Common

  type Credential = map<string, string>

  const MandatoryFields: seq<string> := ["byr", "iyr", "eyr", "hgt", "hcl", "ecl", "pid"]

  /** Index of the first empty line at or after `pos`, or the end of the input. */
  function GroupEnd(lines: seq<string>, pos: nat): (e: nat)
    requires pos <= |lines|
    ensures pos <= e <= |lines|
    ensures forall k | pos <= k < e :: lines[k] != ""
    ensures e < |lines| ==> lines[e] == ""
    decreases |lines| - pos
  {
    if pos == |lines| || lines[pos] == "" then pos else GroupEnd(lines, pos + 1)
  }

  /** Position after a group ending at `e`: the empty line that closed it is consumed. */
  function AfterGroup(lines: seq<string>, e: nat): nat
  {
    if e < |lines| then e + 1 else e
  }

  /** The records the `batching` adaptor produces from position `pos` on: the lines of each
      group joined with spaces, ending at the first empty group. */
  function Batches(lines: seq<string>, pos: nat): (r: seq<string>)
    requires pos <= |lines|
    decreases |lines| - pos
  {
    var e := GroupEnd(lines, pos);
    if e == pos then [] else [Join(lines[pos..e], " ")] + Batches(lines, AfterGroup(lines, e))
  }

  /** One call of the batching closure: pushes lines into a buffer until an empty line (which
      it consumes) or the end of input; an empty buffer ends the stream. */
  method NextBatch(lines: seq<string>, pos: nat) returns (batch: Option<string>, next: nat)
    requires pos <= |lines|
    ensures var e := GroupEnd(lines, pos);
            next == AfterGroup(lines, e) && batch == if e == pos then None else Some(Join(lines[pos..e], " "))
  {
    var buffer: seq<string> := [];
    var i := pos;
    while i < |lines| && lines[i] != ""
      invariant pos <= i <= |lines| && GroupEnd(lines, pos) == GroupEnd(lines, i)
      invariant buffer == lines[pos..i]
      decreases |lines| - i
    {
      buffer := buffer + [lines[i]];
      i := i + 1;
    }
    next := if i < |lines| then i + 1 else i;
    if buffer == [] {
      batch := None;
    } else {
      batch := Some(Join(buffer, " "));
    }
  }

  /** A `key:value` part split at its first `:`; parts without `:` give nothing. */
  function Field(part: string): Option<(string, string)>
  {
    match IndexOfAny(part, {':'})
    case None => None
    case Some(i) => Some((part[..i], part[i + 1..]))
  }

  /** A part gives a field exactly when it holds a `:`; the key and the value put back
      together around the `:` are the part, and the key holds no `:`. */
  lemma FieldSplits(part: string)
    ensures var f := Field(part);
            (f.Some? <==> ':' in part)
            && (f.Some? ==> f.value.0 + [':'] + f.value.1 == part && ':' !in f.value.0)
  {
    match IndexOfAny(part, {':'})
    case None =>
    case Some(i) =>
      assert part == part[..i] + [':'] + part[i + 1..];
  }

  /** The part holds a field with key `k`. */
  predicate HasKey(part: string, k: string)
  {
    Field(part).Some? && Field(part).value.0 == k
  }

  /** Position of the last part holding key `k`. */
  function LastWithKey(parts: seq<string>, k: string): (r: Option<nat>)
    ensures r.Some? ==> r.value < |parts| && HasKey(parts[r.value], k)
                        && forall l | r.value < l < |parts| :: !HasKey(parts[l], k)
    ensures r.None? ==> forall l | 0 <= l < |parts| :: !HasKey(parts[l], k)
  {
    if parts == [] then None
    else if HasKey(parts[|parts| - 1], k) then Some(|parts| - 1)
    else
      var init := parts[..|parts| - 1];
      assert forall l | 0 <= l < |init| :: init[l] == parts[l];
      LastWithKey(init, k)
  }

  /** Collects the fields of `parts` into a map, left to right, so that a later duplicate
      key overwrites: each key maps to the value of its last part. */
  function CollectFields(parts: seq<string>): (m: Credential)
    ensures forall k :: k in m <==> LastWithKey(parts, k).Some?
    ensures forall k | k in m :: m[k] == Field(parts[LastWithKey(parts, k).value]).value.1
  {
    if parts == [] then map[]
    else
      var m := CollectFields(parts[..|parts| - 1]);
      match Field(parts[|parts| - 1])
      case None => m
      case Some((k, v)) => m[k := v]
  }

  /** Turns one joined record line into its key/value map. */
  function ParseCredential(line: string): Credential
  {
    CollectFields(SplitOn(line, {' '}))
  }

  /** Each record line turned into its key/value map. */
  function ParseAll(records: seq<string>): (creds: seq<Credential>)
    ensures |creds| == |records|
  {
    if records == [] then [] else [ParseCredential(records[0])] + ParseAll(records[1..])
  }

  /** `convert_to_credentials`: runs the batching closure until it ends the stream and maps
      each record line to its fields. */
  method ConvertToCredentials(lines: seq<string>) returns (creds: seq<Credential>)
    ensures creds == ParseAll(Batches(lines, 0))
  {
    creds := [];
    var pos := 0;
    while true
      invariant pos <= |lines|
      invariant creds + ParseAll(Batches(lines, pos)) == ParseAll(Batches(lines, 0))
      decreases |lines| - pos
    {
      var batch, next := NextBatch(lines, pos);
      if batch.None? {
        assert creds == creds + ParseAll(Batches(lines, pos));
        return;
      }
      ghost var later := Batches(lines, next);
      assert Batches(lines, pos) == [batch.value] + later;
      assert ([batch.value] + later)[1..] == later;
      creds := creds + [ParseCredential(batch.value)];
      pos := next;
    }
  }

  /** A record holds every mandatory key (`cid` is optional). */
  predicate HasMandatoryFields(c: Credential)
  {
    forall j | 0 <= j < |MandatoryFields| :: MandatoryFields[j] in c
  }

  /** `count_valid`: the number of records holding all mandatory keys. */
  function CountValid(creds: seq<Credential>): (n: nat)
    ensures n <= |creds|
    ensures n == |creds| <==> forall k | 0 <= k < |creds| :: HasMandatoryFields(creds[k])
    ensures n == 0 <==> forall k | 0 <= k < |creds| :: !HasMandatoryFields(creds[k])
  {
    if creds == [] then 0
    else CountValid(creds[..|creds| - 1]) + if HasMandatoryFields(creds[|creds| - 1]) then 1 else 0
  }

  /** A group of non-empty lines followed by a blank line becomes one record, and two blank
      lines in a row end the whole stream. */
  lemma {:induction false} EmptyGroupEndsStream(lines: seq<string>, pos: nat)
    requires pos < |lines| && lines[pos] == ""
    ensures Batches(lines, pos) == []
  {
  }

  /** Every record the batching produces is a non-empty line. */
  lemma {:induction false} BatchesNonEmpty(lines: seq<string>, pos: nat)
    requires pos <= |lines|
    ensures forall k | 0 <= k < |Batches(lines, pos)| :: Batches(lines, pos)[k] != ""
    decreases |lines| - pos
  {
    var e := GroupEnd(lines, pos);
    if e != pos {
      BatchesNonEmpty(lines, AfterGroup(lines, e));
      var group := lines[pos..e];
      assert group[0] != "";
      assert |Join(group, " ")| >= |group[0]|;
    }
  }

  lemma CredentialExampleParts()
    ensures SplitOn("test:value" + " " + "another:again", {' '}) == ["test:value", "another:again"]
  {
    IndexOfAnyAbsent("test:value", {' '});
    IndexOfAnyAbsent("another:again", {' '});
    SplitOnTwo("test:value", ' ', "another:again", {' '});
  }

  /** A part with a single `:` splits into the text before it and the text after it. */
  lemma FieldOfPair(key: string, value: string)
    requires ':' !in key
    ensures Field(key + [':'] + value) == Some((key, value))
  {
    IndexOfAnyAbsent(key, {':'});
    IndexAfterPrefix(key, ':', value, {':'});
  }

  lemma CredentialExampleFields()
    ensures Field("test:value") == Some(("test", "value"))
    ensures Field("another:again") == Some(("another", "again"))
  {
    assert "test:value" == "test" + [':'] + "value";
    FieldOfPair("test", "value");
    assert "another:again" == "another" + [':'] + "again";
    FieldOfPair("another", "again");
  }

  /** The intended reading of the source's conversion test. */
  lemma CredentialExample()
    ensures var c := ParseCredential("test:value" + " " + "another:again");
            "test" in c && c["test"] == "value" && "another" in c && c["another"] == "again"
  {
    CredentialExampleParts();
    CredentialExampleFields();
    var parts := ["test:value", "another:again"];
    assert HasKey(parts[0], "test") && !HasKey(parts[1], "test");
    assert HasKey(parts[1], "another");
  }

  lemma BatchingExample()
    ensures Batches(["a:1", "b:2", "", "c:3"], 0) == ["a:1 b:2", "c:3"]
    ensures Batches(["a:1", "", "", "c:3"], 0) == ["a:1"]
  {
    var l1 := ["a:1", "b:2", "", "c:3"];
    assert GroupEnd(l1, 0) == 2;
    assert GroupEnd(l1, 3) == 4;
    assert l1[0..2] == ["a:1", "b:2"];
    assert Join(["a:1", "b:2"], " ") == "a:1 b:2";
    assert l1[3..4] == ["c:3"];
    var l2 := ["a:1", "", "", "c:3"];
    assert GroupEnd(l2, 0) == 1;
    assert l2[0..1] == ["a:1"];
    EmptyGroupEndsStream(l2, 2);
  }
}
