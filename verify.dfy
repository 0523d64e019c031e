/** The baseline lifecycle of a shader snapshot test (`VerifyImages`): the
    first run writes the baseline; later runs write a candidate next to it,
    ask the image comparison whether the two differ, run the upload script
    and report the failure when they do, and delete the candidate. */
module Verify {
  import opened VerifierName
  import Disk

  /** The file the upload script leaves a URL in. */
  const UrlFile: string := "url"

  function BaselinePath(stem: string): string { stem + ".png" }

  function CandidatePath(stem: string): string { stem + "_new.png" }

  /** What `VerifyImages` does, in order. */
  datatype Event =
    | Screenshot(path: string)
    | Compared(baseline: string, candidate: string)
    | Uploaded
    | Removed(path: string)
    | OnFailure(url: string)

  datatype Outcome = BaselineCreated | Matched | Mismatched(url: string)

  /** The events of one call, given whether the baseline existed, the
      comparison's answer, the URL read back and whether the failure
      callback leaves by an exception. */
  function VerifyEvents(baselineExists: bool, baseline: string, candidate: string,
                        different: bool, url: string, callbackThrows: bool): seq<Event>
  {
    if !baselineExists then [Screenshot(baseline)]
    else
      [Screenshot(candidate), Compared(baseline, candidate)]
      + (if different then [Uploaded, Removed(UrlFile), OnFailure(url)] else [])
      + (if different && callbackThrows then [] else [Removed(candidate)])
  }

  function ApplyEvent(files: set<string>, e: Event): set<string> {
    match e
    case Screenshot(p) => files + {p}
    case Uploaded => files + {UrlFile}
    case Removed(p) => files - {p}
    case _ => files
  }

  /** The set of files after a sequence of events. */
  function Apply(files: set<string>, events: seq<Event>): set<string>
    decreases |events|
  {
    if |events| == 0 then files
    else ApplyEvent(Apply(files, events[..|events| - 1]), events[|events| - 1])
  }

  lemma ApplySnoc(files: set<string>, events: seq<Event>, e: Event)
    ensures Apply(files, events + [e]) == ApplyEvent(Apply(files, events), e)
  {
    assert (events + [e])[..|events|] == events;
  }

  function CountFailures(events: seq<Event>): nat {
    if |events| == 0 then 0
    else (if events[0].OnFailure? then 1 else 0) + CountFailures(events[1..])
  }

  lemma {:induction false} CountFailuresAppend(a: seq<Event>, b: seq<Event>)
    ensures CountFailures(a + b) == CountFailures(a) + CountFailures(b)
  {
    if |a| > 0 {
      assert (a + b)[1..] == a[1..] + b;
      CountFailuresAppend(a[1..], b);
    } else {
      assert a + b == b;
    }
  }

  lemma CountFailuresSingle(e: Event)
    ensures CountFailures([e]) == if e.OnFailure? then 1 else 0
  {
    assert [e][1..] == [];
  }

  /** A baseline path, a candidate path and the URL file are three
      different files. */
  lemma PathsNeverCoincide(stem: string)
    ensures BaselinePath(stem) != CandidatePath(stem)
    ensures BaselinePath(stem) != UrlFile && CandidatePath(stem) != UrlFile
  {
    assert |BaselinePath(stem)| != |CandidatePath(stem)|;
    assert |BaselinePath(stem)| > |UrlFile|;
  }

  /** Across test cases the two conventions do collide: the candidate of
      any test case is the baseline of the same name followed by " _new".
      When the running test's own baseline exists, it writes its candidate
      over that other test's baseline, and deletes it again unless the
      failure callback throws. When its own baseline is missing, it writes
      only its own baseline and the other file is not touched. */
  lemma CandidateShadowsOtherBaseline(name: string)
    ensures CandidatePath(Stem(name)) == BaselinePath(Stem(name + " _new"))
  {
    StemOfShadowName(name);
    assert "_new" + ".png" == "_new.png";
    assert (Stem(name) + "_new") + ".png" == Stem(name) + ("_new" + ".png");
  }

  /** Appending the word `_new` to a name appends it to the stem. */
  lemma StemOfShadowName(name: string)
    ensures Stem(name + " _new") == Stem(name) + "_new"
  {
    var sep, suffix := ' ', "_new";
    assert " _new" == [sep] + suffix;
    assert name + " _new" == name + [sep] + suffix;
    StemSplitsAtSpace(name, sep, suffix);
    StemOfNewSuffix();
  }

  /** The word `_new` is its own stem. */
  lemma StemOfNewSuffix()
    ensures Stem("_new") == "_new"
  {
    var suffix := "_new";
    assert suffix == ['_', 'n', 'e', 'w'];
    assert forall k :: 0 <= k < |suffix| ==> !IsSpace(suffix[k]);
    StemOfWord(suffix);
    assert Capitalize(suffix) == [Upper('_')] + LowerAll("new");
    assert "new" == ['n', 'e', 'w'];
    assert forall k :: 0 <= k < 3 ==> !IsUpperLetter("new"[k]);
    LowerAllKeepsLowercase("new");
  }

  /** The failure callback runs exactly once when an existing baseline
      differs from the candidate, and never otherwise. */
  lemma CallbackOnlyOnDifference(baselineExists: bool, baseline: string, candidate: string,
                                 different: bool, url: string, callbackThrows: bool)
    ensures CountFailures(VerifyEvents(baselineExists, baseline, candidate, different, url, callbackThrows))
            == if baselineExists && different then 1 else 0
  {
    var events := VerifyEvents(baselineExists, baseline, candidate, different, url, callbackThrows);
    if baselineExists {
      var head := [Screenshot(candidate), Compared(baseline, candidate)];
      var middle := if different then [Uploaded, Removed(UrlFile), OnFailure(url)] else [];
      var tail := if different && callbackThrows then [] else [Removed(candidate)];
      CountFailuresAppend(head + middle, tail);
      CountFailuresAppend(head, middle);
      CountFailuresAppend([Screenshot(candidate)], [Compared(baseline, candidate)]);
      CountFailuresSingle(Screenshot(candidate));
      CountFailuresSingle(Compared(baseline, candidate));
      if different {
        CountFailuresAppend([Uploaded, Removed(UrlFile)], [OnFailure(url)]);
        CountFailuresAppend([Uploaded], [Removed(UrlFile)]);
        CountFailuresSingle(Uploaded);
        CountFailuresSingle(Removed(UrlFile));
        CountFailuresSingle(OnFailure(url));
      }
      if tail != [] {
        CountFailuresSingle(Removed(candidate));
      }
    } else {
      CountFailuresSingle(Screenshot(baseline));
    }
  }

  /** The URL file is removed before the callback receives the URL. */
  lemma UrlRemovedBeforeCallback(baselineExists: bool, baseline: string, candidate: string,
                                 different: bool, url: string, callbackThrows: bool, j: nat)
    requires j < |VerifyEvents(baselineExists, baseline, candidate, different, url, callbackThrows)|
    requires VerifyEvents(baselineExists, baseline, candidate, different, url, callbackThrows)[j].OnFailure?
    ensures exists i :: 0 <= i < j && VerifyEvents(baselineExists, baseline, candidate, different, url, callbackThrows)[i] == Removed(UrlFile)
  {
    var events := VerifyEvents(baselineExists, baseline, candidate, different, url, callbackThrows);
    assert j == 4 && events[3] == Removed(UrlFile);
  }

  /** An existing baseline is neither rewritten nor removed: the only
      screenshot is the candidate's and the only removals are the URL file
      and the candidate. A missing baseline is written and nothing else
      happens: no comparison, no callback. */
  lemma BaselineUntouched(stem: string, baselineExists: bool, different: bool, url: string, callbackThrows: bool)
    ensures var baseline, candidate := BaselinePath(stem), CandidatePath(stem);
            var events := VerifyEvents(baselineExists, baseline, candidate, different, url, callbackThrows);
            && (baselineExists ==>
                  forall i :: 0 <= i < |events| ==>
                    events[i] != Screenshot(baseline) && events[i] != Removed(baseline)
                    && (events[i].Screenshot? ==> events[i].path == candidate)
                    && (events[i].Removed? ==> events[i].path in {UrlFile, candidate}))
            && (!baselineExists ==>
                  forall i :: 0 <= i < |events| ==> !events[i].Compared? && !events[i].OnFailure?)
  {
    PathsNeverCoincide(stem);
  }

  /** The file set a call leaves behind. An existing baseline is never
      written or removed; the candidate is gone unless the callback threw;
      the URL file is gone after a difference. */
  lemma VerifyEffect(files: set<string>, stem: string, different: bool, url: string, callbackThrows: bool)
    ensures var baseline, candidate := BaselinePath(stem), CandidatePath(stem);
            var events := VerifyEvents(baseline in files, baseline, candidate, different, url, callbackThrows);
            Apply(files, events) ==
              if baseline !in files then files + {baseline}
              else if !different then files - {candidate}
              else if callbackThrows then files + {candidate} - {UrlFile}
              else files - {candidate} - {UrlFile}
  {
    var baseline, candidate := BaselinePath(stem), CandidatePath(stem);
    PathsNeverCoincide(stem);
    if baseline !in files {
      ApplySnoc(files, [], Screenshot(baseline));
      assert [] + [Screenshot(baseline)] == [Screenshot(baseline)];
    } else {
      CompareEffect(files, baseline, candidate, different, url, callbackThrows);
    }
  }

  lemma CompareEffect(files: set<string>, baseline: string, candidate: string, different: bool, url: string, callbackThrows: bool)
    requires candidate != UrlFile
    ensures Apply(files, VerifyEvents(true, baseline, candidate, different, url, callbackThrows)) ==
              if !different then files - {candidate}
              else if callbackThrows then files + {candidate} - {UrlFile}
              else files - {candidate} - {UrlFile}
  {
    var e1 := [Screenshot(candidate)];
    var e2 := e1 + [Compared(baseline, candidate)];
    ApplySnoc(files, [], Screenshot(candidate));
    assert [] + [Screenshot(candidate)] == e1;
    ApplySnoc(files, e1, Compared(baseline, candidate));
    assert Apply(files, e2) == files + {candidate};
    if different {
      var e3 := e2 + [Uploaded];
      var e4 := e3 + [Removed(UrlFile)];
      var e5 := e4 + [OnFailure(url)];
      ApplySnoc(files, e2, Uploaded);
      ApplySnoc(files, e3, Removed(UrlFile));
      ApplySnoc(files, e4, OnFailure(url));
      assert Apply(files, e5) == files + {candidate} + {UrlFile} - {UrlFile};
      assert files + {candidate} + {UrlFile} - {UrlFile} == files + {candidate} - {UrlFile};
      if callbackThrows {
        assert VerifyEvents(true, baseline, candidate, different, url, callbackThrows) == e5;
      } else {
        ApplySnoc(files, e5, Removed(candidate));
        assert VerifyEvents(true, baseline, candidate, different, url, callbackThrows) == e5 + [Removed(candidate)];
        assert files + {candidate} - {UrlFile} - {candidate} == files - {candidate} - {UrlFile};
      }
    } else {
      ApplySnoc(files, e2, Removed(candidate));
      assert VerifyEvents(true, baseline, candidate, different, url, callbackThrows) == e2 + [Removed(candidate)];
    }
  }

  /** The upload script `./testing-shaders/upload-imgur.sh`, run with no
      argument: all that is modelled is that it leaves the file `UrlFile`,
      whose text `VerifyImages` then reads. */
  method RunUploadScript(fs: Disk.FileSet)
    modifies fs
    ensures fs.files == old(fs.files) + {UrlFile}
  {
    fs.files := fs.files + {UrlFile};
  }

  /** The second half of `VerifyImages`, once the baseline is known to
      exist: screenshot the candidate, compare, on a difference run the
      upload script, read and delete the URL file and call `on_failure`,
      then delete the candidate unless the callback threw. */
  method CompareWithBaseline(fs: Disk.FileSet, baseline: string, candidate: string,
                             imagesDiffer: (string, string) -> bool, urlText: string, callbackThrows: bool)
    returns (outcome: Outcome, ghost events: seq<Event>)
    modifies fs
    ensures events == VerifyEvents(true, baseline, candidate, imagesDiffer(baseline, candidate), urlText, callbackThrows)
    ensures fs.files == Apply(old(fs.files), events)
    ensures outcome == if imagesDiffer(baseline, candidate) then Mismatched(urlText) else Matched
  {
    ghost var files0 := fs.files;
    events := [];
    fs.TakeScreenshot(candidate);
    var different := imagesDiffer(baseline, candidate);
    ApplySnoc(files0, events, Screenshot(candidate));
    events := events + [Screenshot(candidate)];
    assert fs.files == Apply(files0, events);
    ApplySnoc(files0, events, Compared(baseline, candidate));
    events := events + [Compared(baseline, candidate)];
    assert fs.files == Apply(files0, events);
    outcome := Matched;
    if different {
      RunUploadScript(fs);
      ApplySnoc(files0, events, Uploaded);
      events := events + [Uploaded];
      assert fs.files == Apply(files0, events);
      var url := urlText;
      fs.RemoveFile(UrlFile);
      ApplySnoc(files0, events, Removed(UrlFile));
      events := events + [Removed(UrlFile)];
      assert fs.files == Apply(files0, events);
      ApplySnoc(files0, events, OnFailure(url));
      events := events + [OnFailure(url)];
      assert fs.files == Apply(files0, events);
      outcome := Mismatched(url);
      assert events == [Screenshot(candidate), Compared(baseline, candidate)]
                       + [Uploaded, Removed(UrlFile), OnFailure(url)];
      if callbackThrows {
        return;
      }
    }
    ghost var before := events;
    fs.RemoveFile(candidate);
    ApplySnoc(files0, events, Removed(candidate));
    events := events + [Removed(candidate)];
    assert fs.files == Apply(files0, events);
    assert events == before + [Removed(candidate)];
  }

  /** `VerifyImages`. `imagesDiffer` stands for `AreImagesDifferent`,
      `urlText` for what `ReadFile` returns for the URL file, and
      `callbackThrows` says whether `on_failure` leaves by an exception. */
  method VerifyImages(fs: Disk.FileSet, testCaseName: string, imagesDiffer: (string, string) -> bool,
                      urlText: string, callbackThrows: bool)
    returns (outcome: Outcome, ghost events: seq<Event>)
    modifies fs
    ensures var stem := Stem(testCaseName);
            var baseline, candidate := BaselinePath(stem), CandidatePath(stem);
            && events == VerifyEvents(baseline in old(fs.files), baseline, candidate,
                                      imagesDiffer(baseline, candidate), urlText, callbackThrows)
            && fs.files == Apply(old(fs.files), events)
            && outcome == if baseline !in old(fs.files) then BaselineCreated
                          else if imagesDiffer(baseline, candidate) then Mismatched(urlText)
                          else Matched
  {
    var savedFile := GenerateVerifierFileName(testCaseName);
    var newFile := savedFile + "_new";
    var savedFileFull := savedFile + ".png";
    var newFileFull := newFile + ".png";
    assert newFileFull == CandidatePath(savedFile);

    if !fs.FileExists(savedFileFull) {
      ghost var files0 := fs.files;
      fs.TakeScreenshot(savedFileFull);
      events := [Screenshot(savedFileFull)];
      ApplySnoc(files0, [], Screenshot(savedFileFull));
      assert [] + events == events;
      outcome := BaselineCreated;
      return;
    }

    outcome, events := CompareWithBaseline(fs, savedFileFull, newFileFull, imagesDiffer, urlText, callbackThrows);
  }
}
