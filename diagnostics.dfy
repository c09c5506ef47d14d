/**
 * `Chevereto.TestUploaders`: probe every endpoint of the registry once, sort
 * the working ones by upload time and format a report. The outcome of each
 * probe (an exception, or the result `Upload` returned and the milliseconds it
 * took) is an input; `CheveretoUploader.ToString`, which names an entry, is
 * the parameter `nameOf`.
 */
module CheveretoDiagnostics {
  import opened Wrappers
  import opened Text
  import opened Linq
  import opened UploaderConfig
  import opened CheveretoUploads

  /** `CheveretoTest`: an entry's name and its upload time in milliseconds. */
  datatype CheveretoTest = CheveretoTest(name: string, uploadTime: int)

  /** `new CheveretoTest { Name = name }`: the upload time keeps its default, -1. */
  function NewTest(name: string): CheveretoTest {
    CheveretoTest(name, -1)
  }

  /** `CheveretoTest.ToString`: "Name (Tms)" for a measured entry, the bare name otherwise. */
  function ToString(test: CheveretoTest): (s: string)
    ensures |test.name| <= |s| && s[..|test.name|] == test.name
    ensures test.uploadTime < 0 ==> s == test.name
    ensures test.uploadTime >= 0 ==>
              && |s| >= |test.name| + 6
              && s[|test.name|..|test.name| + 2] == " ("
              && s[|s| - 3..] == "ms)"
              && Canonical(s[|test.name| + 2..|s| - 3])
              && ParseDecimal(s[|test.name| + 2..|s| - 3]) == test.uploadTime
  {
    if test.uploadTime >= 0 then
      var digits := NatToString(test.uploadTime);
      var s := test.name + " (" + digits + "ms)";
      assert s[|test.name| + 2..|s| - 3] == digits;
      s
    else test.name
  }

  /** What one probe of `TestUploaders` ended with. */
  datatype Probe =
    | Threw                                               // the probe raised an exception
    | Finished(result: Option<ResultFields>, elapsedMs: nat)  // `Upload` returned (possibly null) after this long

  /** The classification test: a non-null result that succeeded and has a non-empty URL. */
  predicate Works(probe: Probe) {
    probe.Finished? && probe.result.Some? && probe.result.value.isSuccess && !IsNullOrEmpty(probe.result.value.url)
  }

  /** The `successful` list after probing the entries `uploaders`, in registry order. */
  function Successful(uploaders: seq<CheveretoUploader>, probes: seq<Probe>, nameOf: CheveretoUploader -> string): seq<CheveretoTest>
    requires |probes| == |uploaders|
  {
    if probes == [] then []
    else
      var n := |probes| - 1;
      Successful(uploaders[..n], probes[..n], nameOf) +
        (if Works(probes[n]) then [CheveretoTest(nameOf(uploaders[n]), probes[n].elapsedMs)] else [])
  }

  /** The `failed` list after probing the entries `uploaders`, in registry order. */
  function Failed(uploaders: seq<CheveretoUploader>, probes: seq<Probe>, nameOf: CheveretoUploader -> string): seq<CheveretoTest>
    requires |probes| == |uploaders|
  {
    if probes == [] then []
    else
      var n := |probes| - 1;
      Failed(uploaders[..n], probes[..n], nameOf) +
        (if Works(probes[n]) then [] else [NewTest(nameOf(uploaders[n]))])
  }

  function UploadTime(test: CheveretoTest): int {
    test.uploadTime
  }

  function Lines(tests: seq<CheveretoTest>): (lines: seq<string>)
    ensures |lines| == |tests|
    ensures forall i :: 0 <= i < |tests| ==> lines[i] == ToString(tests[i])
  {
    if tests == [] then [] else [ToString(tests[0])] + Lines(tests[1..])
  }

  /** The `string.Format` template of the report. */
  function Format(successCount: nat, successList: string, failCount: nat, failList: string): string {
    "Successful uploads (" + NatToString(successCount) + "):\r\n\r\n" + successList +
      "\r\n\r\nFailed uploads (" + NatToString(failCount) + "):\r\n\r\n" + failList
  }

  /** The report for the two lists; the successful ones are listed by ascending upload time. */
  function Report(successful: seq<CheveretoTest>, failed: seq<CheveretoTest>): string {
    Format(|successful|, Join("\r\n", Lines(OrderBy(successful, UploadTime))), |failed|, Join("\r\n", Lines(failed)))
  }

  /**
   * `TestUploaders()`: one pass over the registry in order, appending each
   * entry to `successful` or `failed`; an exception is caught and counts as a
   * failure, and the pass goes on.
   */
  method TestUploaders(uploaders: seq<CheveretoUploader>, probes: seq<Probe>, nameOf: CheveretoUploader -> string)
    returns (report: string)
    requires |probes| == |uploaders|
    ensures report == Report(Successful(uploaders, probes, nameOf), Failed(uploaders, probes, nameOf))
  {
    var successful: seq<CheveretoTest> := [];
    var failed: seq<CheveretoTest> := [];
    for i := 0 to |uploaders|
      invariant successful == Successful(uploaders[..i], probes[..i], nameOf)
      invariant failed == Failed(uploaders[..i], probes[..i], nameOf)
    {
      var uploader := uploaders[i];
      assert uploaders[..i + 1][..i] == uploaders[..i] && probes[..i + 1][..i] == probes[..i];
      match probes[i]
      case Finished(result, uploadTime) =>
        if result.Some? && result.value.isSuccess && !IsNullOrEmpty(result.value.url) {
          successful := successful + [CheveretoTest(nameOf(uploader), uploadTime)];
        } else {
          failed := failed + [NewTest(nameOf(uploader))];
        }
      case Threw =>
        failed := failed + [NewTest(nameOf(uploader))];
    }
    assert uploaders[..|uploaders|] == uploaders && probes[..|probes|] == probes;
    report := Report(successful, failed);
  }

  // ---------------------------------------------------------------------
  // What the pass promises

  /** Every entry lands in exactly one of the two lists. */
  lemma {:induction false} PartitionCount(uploaders: seq<CheveretoUploader>, probes: seq<Probe>, nameOf: CheveretoUploader -> string)
    requires |probes| == |uploaders|
    ensures |Successful(uploaders, probes, nameOf)| + |Failed(uploaders, probes, nameOf)| == |uploaders|
  {
    if probes != [] {
      var n := |probes| - 1;
      PartitionCount(uploaders[..n], probes[..n], nameOf);
    }
  }

  /** The number of probes that work. */
  function CountWorks(probes: seq<Probe>): nat {
    if probes == [] then 0
    else CountWorks(probes[..|probes| - 1]) + (if Works(probes[|probes| - 1]) then 1 else 0)
  }

  /** The success count in the report's header is the number of probes that work. */
  lemma {:induction false} SuccessCountIsWorking(uploaders: seq<CheveretoUploader>, probes: seq<Probe>, nameOf: CheveretoUploader -> string)
    requires |probes| == |uploaders|
    ensures |Successful(uploaders, probes, nameOf)| == CountWorks(probes)
    ensures |Failed(uploaders, probes, nameOf)| == |probes| - CountWorks(probes)
  {
    if probes != [] {
      var n := |probes| - 1;
      SuccessCountIsWorking(uploaders[..n], probes[..n], nameOf);
    }
  }

  /** Probing two stretches of the registry one after the other concatenates their `successful` lists. */
  lemma {:induction false} SuccessfulConcat(us1: seq<CheveretoUploader>, ps1: seq<Probe>, us2: seq<CheveretoUploader>, ps2: seq<Probe>,
                                            nameOf: CheveretoUploader -> string)
    requires |ps1| == |us1| && |ps2| == |us2|
    ensures Successful(us1 + us2, ps1 + ps2, nameOf) == Successful(us1, ps1, nameOf) + Successful(us2, ps2, nameOf)
  {
    if ps2 == [] {
      assert us1 + us2 == us1 && ps1 + ps2 == ps1;
    } else {
      var n := |ps2| - 1;
      var us, ps := us1 + us2, ps1 + ps2;
      assert us[..|us| - 1] == us1 + us2[..n];
      assert ps[..|ps| - 1] == ps1 + ps2[..n];
      assert us[|us| - 1] == us2[n] && ps[|ps| - 1] == ps2[n];
      SuccessfulConcat(us1, ps1, us2[..n], ps2[..n], nameOf);
      var last := if Works(ps2[n]) then [CheveretoTest(nameOf(us2[n]), ps2[n].elapsedMs)] else [];
      calc {
        Successful(us, ps, nameOf);
        Successful(us1 + us2[..n], ps1 + ps2[..n], nameOf) + last;
        (Successful(us1, ps1, nameOf) + Successful(us2[..n], ps2[..n], nameOf)) + last;
        Successful(us1, ps1, nameOf) + (Successful(us2[..n], ps2[..n], nameOf) + last);
      }
    }
  }

  /** Probing two stretches of the registry one after the other concatenates their `failed` lists. */
  lemma {:induction false} FailedConcat(us1: seq<CheveretoUploader>, ps1: seq<Probe>, us2: seq<CheveretoUploader>, ps2: seq<Probe>,
                                        nameOf: CheveretoUploader -> string)
    requires |ps1| == |us1| && |ps2| == |us2|
    ensures Failed(us1 + us2, ps1 + ps2, nameOf) == Failed(us1, ps1, nameOf) + Failed(us2, ps2, nameOf)
  {
    if ps2 == [] {
      assert us1 + us2 == us1 && ps1 + ps2 == ps1;
    } else {
      var n := |ps2| - 1;
      var us, ps := us1 + us2, ps1 + ps2;
      assert us[..|us| - 1] == us1 + us2[..n];
      assert ps[..|ps| - 1] == ps1 + ps2[..n];
      assert us[|us| - 1] == us2[n] && ps[|ps| - 1] == ps2[n];
      FailedConcat(us1, ps1, us2[..n], ps2[..n], nameOf);
      var last := if Works(ps2[n]) then [] else [NewTest(nameOf(us2[n]))];
      calc {
        Failed(us, ps, nameOf);
        Failed(us1 + us2[..n], ps1 + ps2[..n], nameOf) + last;
        (Failed(us1, ps1, nameOf) + Failed(us2[..n], ps2[..n], nameOf)) + last;
        Failed(us1, ps1, nameOf) + (Failed(us2[..n], ps2[..n], nameOf) + last);
      }
    }
  }

  /**
   * A probe that throws is recorded as failed, in its place, and the entries
   * after it are classified exactly as if it had not been there.
   */
  lemma {:induction false} ThrowingProbeIsContained(uploaders: seq<CheveretoUploader>, probes: seq<Probe>,
                                                    nameOf: CheveretoUploader -> string, i: nat)
    requires |probes| == |uploaders| && i < |probes| && probes[i] == Threw
    ensures Successful(uploaders, probes, nameOf) ==
              Successful(uploaders[..i], probes[..i], nameOf) + Successful(uploaders[i + 1..], probes[i + 1..], nameOf)
    ensures Failed(uploaders, probes, nameOf) ==
              Failed(uploaders[..i], probes[..i], nameOf) + [NewTest(nameOf(uploaders[i]))] + Failed(uploaders[i + 1..], probes[i + 1..], nameOf)
  {
    var us1, ps1 := uploaders[..i], probes[..i];
    var us2, ps2 := [uploaders[i]], [probes[i]];
    var us3, ps3 := uploaders[i + 1..], probes[i + 1..];
    assert uploaders == (us1 + us2) + us3;
    assert probes == (ps1 + ps2) + ps3;
    OneEntry(uploaders[i], probes[i], nameOf);
    ThreeStretchesSuccessful(us1, ps1, us2, ps2, us3, ps3, nameOf);
    ThreeStretchesFailed(us1, ps1, us2, ps2, us3, ps3, nameOf);
  }

  lemma ThreeStretchesSuccessful(us1: seq<CheveretoUploader>, ps1: seq<Probe>, us2: seq<CheveretoUploader>, ps2: seq<Probe>,
                                 us3: seq<CheveretoUploader>, ps3: seq<Probe>, nameOf: CheveretoUploader -> string)
    requires |ps1| == |us1| && |ps2| == |us2| && |ps3| == |us3|
    ensures Successful((us1 + us2) + us3, (ps1 + ps2) + ps3, nameOf) ==
              Successful(us1, ps1, nameOf) + Successful(us2, ps2, nameOf) + Successful(us3, ps3, nameOf)
  {
    SuccessfulConcat(us1, ps1, us2, ps2, nameOf);
    SuccessfulConcat(us1 + us2, ps1 + ps2, us3, ps3, nameOf);
  }

  lemma ThreeStretchesFailed(us1: seq<CheveretoUploader>, ps1: seq<Probe>, us2: seq<CheveretoUploader>, ps2: seq<Probe>,
                             us3: seq<CheveretoUploader>, ps3: seq<Probe>, nameOf: CheveretoUploader -> string)
    requires |ps1| == |us1| && |ps2| == |us2| && |ps3| == |us3|
    ensures Failed((us1 + us2) + us3, (ps1 + ps2) + ps3, nameOf) ==
              Failed(us1, ps1, nameOf) + Failed(us2, ps2, nameOf) + Failed(us3, ps3, nameOf)
  {
    FailedConcat(us1, ps1, us2, ps2, nameOf);
    FailedConcat(us1 + us2, ps1 + ps2, us3, ps3, nameOf);
  }

  lemma OneEntry(uploader: CheveretoUploader, probe: Probe, nameOf: CheveretoUploader -> string)
    ensures Successful([uploader], [probe], nameOf) == if Works(probe) then [CheveretoTest(nameOf(uploader), probe.elapsedMs)] else []
    ensures Failed([uploader], [probe], nameOf) == if Works(probe) then [] else [NewTest(nameOf(uploader))]
  {
    assert [uploader][..0] == [] && [probe][..0] == [];
  }

  /** An entry is listed as successful, with its measured time, exactly when its probe works. */
  lemma {:induction false} SuccessfulEntries(uploaders: seq<CheveretoUploader>, probes: seq<Probe>, nameOf: CheveretoUploader -> string,
                                             test: CheveretoTest)
    requires |probes| == |uploaders|
    ensures test in Successful(uploaders, probes, nameOf) <==>
              exists i :: 0 <= i < |probes| && Works(probes[i]) && test == CheveretoTest(nameOf(uploaders[i]), probes[i].elapsedMs)
  {
    if probes != [] {
      var n := |probes| - 1;
      var us, ps := uploaders[..n], probes[..n];
      var last := if Works(probes[n]) then [CheveretoTest(nameOf(uploaders[n]), probes[n].elapsedMs)] else [];
      assert Successful(uploaders, probes, nameOf) == Successful(us, ps, nameOf) + last;
      SuccessfulEntries(us, ps, nameOf, test);
      if test in Successful(us, ps, nameOf) {
        var i :| 0 <= i < |ps| && Works(ps[i]) && test == CheveretoTest(nameOf(us[i]), ps[i].elapsedMs);
        assert uploaders[i] == us[i] && probes[i] == ps[i];
      }
      if exists i :: 0 <= i < |probes| && Works(probes[i]) && test == CheveretoTest(nameOf(uploaders[i]), probes[i].elapsedMs) {
        var i :| 0 <= i < |probes| && Works(probes[i]) && test == CheveretoTest(nameOf(uploaders[i]), probes[i].elapsedMs);
        if i < n {
          assert us[i] == uploaders[i] && ps[i] == probes[i];
        }
      }
    }
  }

  /** An entry is listed as failed, without a time, exactly when its probe does not work. */
  lemma {:induction false} FailedEntries(uploaders: seq<CheveretoUploader>, probes: seq<Probe>, nameOf: CheveretoUploader -> string,
                                         test: CheveretoTest)
    requires |probes| == |uploaders|
    ensures test in Failed(uploaders, probes, nameOf) <==>
              exists i :: 0 <= i < |probes| && !Works(probes[i]) && test == NewTest(nameOf(uploaders[i]))
  {
    if probes != [] {
      var n := |probes| - 1;
      var us, ps := uploaders[..n], probes[..n];
      var last := if Works(probes[n]) then [] else [NewTest(nameOf(uploaders[n]))];
      assert Failed(uploaders, probes, nameOf) == Failed(us, ps, nameOf) + last;
      FailedEntries(us, ps, nameOf, test);
      if test in Failed(us, ps, nameOf) {
        var i :| 0 <= i < |ps| && !Works(ps[i]) && test == NewTest(nameOf(us[i]));
        assert uploaders[i] == us[i] && probes[i] == ps[i];
      }
      if exists i :: 0 <= i < |probes| && !Works(probes[i]) && test == NewTest(nameOf(uploaders[i])) {
        var i :| 0 <= i < |probes| && !Works(probes[i]) && test == NewTest(nameOf(uploaders[i]));
        if i < n {
          assert us[i] == uploaders[i] && ps[i] == probes[i];
        }
      }
    }
  }

  /** Every successful entry carries its measured time, which is not negative. */
  lemma {:induction false} SuccessfulMeasured(uploaders: seq<CheveretoUploader>, probes: seq<Probe>, nameOf: CheveretoUploader -> string)
    requires |probes| == |uploaders|
    ensures forall t :: t in Successful(uploaders, probes, nameOf) ==> t.uploadTime >= 0
  {
    if probes != [] {
      var n := |probes| - 1;
      SuccessfulMeasured(uploaders[..n], probes[..n], nameOf);
    }
  }

  /** Every failed entry keeps the default time -1. */
  lemma {:induction false} FailedUnmeasured(uploaders: seq<CheveretoUploader>, probes: seq<Probe>, nameOf: CheveretoUploader -> string)
    requires |probes| == |uploaders|
    ensures forall t :: t in Failed(uploaders, probes, nameOf) ==> t.uploadTime == -1
  {
    if probes != [] {
      var n := |probes| - 1;
      FailedUnmeasured(uploaders[..n], probes[..n], nameOf);
    }
  }

  /**
   * The report spelled out: the counts of working and failed entries, which
   * add up to the registry's size; the working entries by ascending time,
   * ties in registry order, each as "Name (Tms)"; the failed entries in
   * registry order, each as its bare name.
   */
  lemma ReportListing(uploaders: seq<CheveretoUploader>, probes: seq<Probe>, nameOf: CheveretoUploader -> string)
    requires |probes| == |uploaders|
    ensures var successful := Successful(uploaders, probes, nameOf);
            var failed := Failed(uploaders, probes, nameOf);
            var sorted := OrderBy(successful, UploadTime);
            && |successful| + |failed| == |uploaders|
            && Report(successful, failed) ==
                 Format(|successful|, Join("\r\n", Lines(sorted)), |uploaders| - |successful|, Join("\r\n", Lines(failed)))
            && Ascending(sorted, UploadTime)
            && (forall t :: WithKey(sorted, UploadTime, t) == WithKey(successful, UploadTime, t))
            && (forall i :: 0 <= i < |sorted| ==>
                  sorted[i].uploadTime >= 0 && Lines(sorted)[i] == sorted[i].name + " (" + NatToString(sorted[i].uploadTime) + "ms)")
            && (forall i :: 0 <= i < |failed| ==> Lines(failed)[i] == failed[i].name)
  {
    ReportCounts(uploaders, probes, nameOf);
    SortedLines(uploaders, probes, nameOf);
    FailedLines(uploaders, probes, nameOf);
  }

  lemma ReportCounts(uploaders: seq<CheveretoUploader>, probes: seq<Probe>, nameOf: CheveretoUploader -> string)
    requires |probes| == |uploaders|
    ensures var successful := Successful(uploaders, probes, nameOf);
            var failed := Failed(uploaders, probes, nameOf);
            && |successful| + |failed| == |uploaders|
            && Report(successful, failed) ==
                 Format(|successful|, Join("\r\n", Lines(OrderBy(successful, UploadTime))), |uploaders| - |successful|, Join("\r\n", Lines(failed)))
  {
    PartitionCount(uploaders, probes, nameOf);
  }

  lemma SortedLines(uploaders: seq<CheveretoUploader>, probes: seq<Probe>, nameOf: CheveretoUploader -> string)
    requires |probes| == |uploaders|
    ensures var sorted := OrderBy(Successful(uploaders, probes, nameOf), UploadTime);
            forall i :: 0 <= i < |sorted| ==>
              sorted[i].uploadTime >= 0 && Lines(sorted)[i] == sorted[i].name + " (" + NatToString(sorted[i].uploadTime) + "ms)"
  {
    var sorted := OrderBy(Successful(uploaders, probes, nameOf), UploadTime);
    SuccessfulMeasured(uploaders, probes, nameOf);
    OrderByMembers(Successful(uploaders, probes, nameOf), UploadTime);
    forall i | 0 <= i < |sorted|
      ensures sorted[i].uploadTime >= 0 && Lines(sorted)[i] == sorted[i].name + " (" + NatToString(sorted[i].uploadTime) + "ms)"
    {
      assert sorted[i] in sorted;
    }
  }

  lemma FailedLines(uploaders: seq<CheveretoUploader>, probes: seq<Probe>, nameOf: CheveretoUploader -> string)
    requires |probes| == |uploaders|
    ensures var failed := Failed(uploaders, probes, nameOf);
            forall i :: 0 <= i < |failed| ==> Lines(failed)[i] == failed[i].name
  {
    var failed := Failed(uploaders, probes, nameOf);
    FailedUnmeasured(uploaders, probes, nameOf);
    forall i | 0 <= i < |failed|
      ensures Lines(failed)[i] == failed[i].name
    {
      assert failed[i] in failed;
    }
  }

  /**
   * The probe of one entry as `TestUploaders` runs it: `Upload` on a fresh
   * `Chevereto`, whose DirectURL is off, taking `elapsedMs`. Such an entry
   * works exactly when the transfer succeeded, the body decoded, and the URL
   * it ends up with (the viewer address when an Image came back, otherwise
   * whatever the transport had put there) is non-empty.
   */
  function ProbeOf(transport: ResultFields, decode: NullableString -> Decoded, elapsedMs: nat): (probe: Probe)
    ensures probe.Threw? <==> transport.isSuccess && decode(transport.response).Malformed?
    ensures Works(probe) <==>
              && transport.isSuccess
              && decode(transport.response).Parsed?
              && !IsNullOrEmpty(if ImageOf(decode(transport.response)).Some? then ImageOf(decode(transport.response)).value.urlViewer
                                else transport.url)
  {
    match MapResponse(transport, false, decode)
    case Raised => Threw
    case Returned(result) => Finished(Some(result), elapsedMs)
  }

  /**
   * Three endpoints: A works in 120 ms, B fails, C works in 40 ms. The report
   * counts two successes and one failure, lists C before A, and lists B.
   */
  lemma ThreeEndpointReport(a: CheveretoUploader, b: CheveretoUploader, c: CheveretoUploader,
                            nameOf: CheveretoUploader -> string, ok: ResultFields, bad: ResultFields)
    requires nameOf(a) == "A" && nameOf(b) == "B" && nameOf(c) == "C"
    requires ok.isSuccess && !IsNullOrEmpty(ok.url) && !bad.isSuccess
    ensures var probes := [Finished(Some(ok), 120), Finished(Some(bad), 75), Finished(Some(ok), 40)];
            Report(Successful([a, b, c], probes, nameOf), Failed([a, b, c], probes, nameOf)) ==
              Format(2, ToString(CheveretoTest("C", 40)) + "\r\n" + ToString(CheveretoTest("A", 120)), 1, "B")
  {
    var p0, p1, p2 := Finished(Some(ok), 120), Finished(Some(bad), 75), Finished(Some(ok), 40);
    var us, ps := [a, b, c], [p0, p1, p2];
    assert us[..2] == [a, b] && ps[..2] == [p0, p1];
    assert [a, b][..1] == [a] && [p0, p1][..1] == [p0];
    OneEntry(a, p0, nameOf);
    assert Successful([a, b], [p0, p1], nameOf) == [CheveretoTest("A", 120)];
    assert Failed([a, b], [p0, p1], nameOf) == [NewTest("B")];
    assert Successful(us, ps, nameOf) == [CheveretoTest("A", 120), CheveretoTest("C", 40)];
    assert Failed(us, ps, nameOf) == [NewTest("B")];
    ThreeEndpointText();
  }

  lemma ThreeEndpointText()
    ensures Report([CheveretoTest("A", 120), CheveretoTest("C", 40)], [NewTest("B")]) ==
              Format(2, ToString(CheveretoTest("C", 40)) + "\r\n" + ToString(CheveretoTest("A", 120)), 1, "B")
  {
    ThreeEndpointSuccessList();
    assert Lines([NewTest("B")]) == ["B"];
  }

  lemma ThreeEndpointSuccessList()
    ensures Join("\r\n", Lines(OrderBy([CheveretoTest("A", 120), CheveretoTest("C", 40)], UploadTime))) ==
              ToString(CheveretoTest("C", 40)) + "\r\n" + ToString(CheveretoTest("A", 120))
  {
    ThreeEndpointOrder();
    var lines := Lines([CheveretoTest("C", 40), CheveretoTest("A", 120)]);
    assert lines[1..] == [ToString(CheveretoTest("A", 120))];
  }

  lemma ThreeEndpointOrder()
    ensures OrderBy([CheveretoTest("A", 120), CheveretoTest("C", 40)], UploadTime) ==
              [CheveretoTest("C", 40), CheveretoTest("A", 120)]
  {
    var successful := [CheveretoTest("A", 120), CheveretoTest("C", 40)];
    assert successful[1..] == [CheveretoTest("C", 40)];
    assert successful[1..][1..] == [];
  }

  /** The two lines of the example above, written out. */
  lemma ThreeEndpointLineC()
    ensures ToString(CheveretoTest("C", 40)) == "C (40ms)"
  {
    assert NatToString(40) == "40";
  }

  lemma ThreeEndpointLineA()
    ensures ToString(CheveretoTest("A", 120)) == "A (120ms)"
  {
    assert NatToString(120) == "120" by {
      assert NatToString(12) == "12";
    }
  }
}
