/** The image comparison (`AreImagesDifferent`): reads two images with
    MagickWand, treats a failed read or a size mismatch as a difference,
    otherwise asks the library for the root-mean-squared-error distortion and
    reports a difference when it is not zero. Decoding and the metric belong
    to the library and are parameters here. */
module ImageCompare {

  datatype Option<T> = None | Some(value: T)

  /** A decoded image: its geometry and an opaque handle for its pixels. */
  datatype Image = Image(width: nat, height: nat, pixels: nat)

  /** The wands of one call: the two images and the difference image that
      `MagickCompareImages` returns. */
  const Wand1: nat := 1
  const Wand2: nat := 2
  const DiffWand: nat := 3

  /** The MagickWand calls one comparison makes, in order. */
  datatype WandCall =
    | Genesis
    | NewWand(wand: nat)
    | ReadImage(wand: nat, path: string)
    | CompareImages(result: Option<nat>)
    | DestroyWand(wand: nat)
    | Terminus

  /** The wands alive after `c`, given those alive before it. */
  function AfterCall(live: set<nat>, c: WandCall): set<nat> {
    if c.NewWand? then live + {c.wand}
    else if c.CompareImages? && c.result.Some? then live + {c.result.value}
    else if c.DestroyWand? then live - {c.wand}
    else live
  }

  function ActivationOf(c: WandCall): int {
    if c.Genesis? then 1 else if c.Terminus? then -1 else 0
  }

  /** The wands allocated and not yet destroyed after `calls`. */
  ghost function Live(calls: seq<WandCall>): set<nat>
    decreases |calls|
  {
    if |calls| == 0 then {}
    else AfterCall(Live(calls[..|calls| - 1]), calls[|calls| - 1])
  }

  /** How many more times the library was set up than shut down. */
  ghost function Active(calls: seq<WandCall>): int
    decreases |calls|
  {
    if |calls| == 0 then 0
    else Active(calls[..|calls| - 1]) + ActivationOf(calls[|calls| - 1])
  }

  /** Every wand destroyed and the library shut down again. */
  ghost predicate Released(calls: seq<WandCall>) {
    Live(calls) == {} && Active(calls) == 0
  }

  lemma CallSnoc(calls: seq<WandCall>, c: WandCall)
    ensures Live(calls + [c]) == AfterCall(Live(calls), c)
    ensures Active(calls + [c]) == Active(calls) + ActivationOf(c)
  {
    assert (calls + [c])[..|calls|] == calls;
  }

  /** The release sequence of the early returns: destroy both image wands,
      then shut the library down. */
  lemma ReleaseBoth(calls: seq<WandCall>)
    requires Live(calls) == {Wand1, Wand2} && Active(calls) == 1
    ensures Released(calls + [DestroyWand(Wand1), DestroyWand(Wand2), Terminus])
  {
    CallSnoc(calls, DestroyWand(Wand1));
    CallSnoc(calls + [DestroyWand(Wand1)], DestroyWand(Wand2));
    CallSnoc(calls + [DestroyWand(Wand1)] + [DestroyWand(Wand2)], Terminus);
    assert calls + [DestroyWand(Wand1)] + [DestroyWand(Wand2)] + [Terminus]
        == calls + [DestroyWand(Wand1), DestroyWand(Wand2), Terminus];
  }

  /** Destroying the difference image after a successful comparison leaves
      the two image wands. */
  lemma ReleaseDiff(calls: seq<WandCall>)
    requires Live(calls) == {Wand1, Wand2} + {DiffWand} && Active(calls) == 1
    ensures Live(calls + [DestroyWand(DiffWand)]) == {Wand1, Wand2}
    ensures Active(calls + [DestroyWand(DiffWand)]) == 1
  {
    CallSnoc(calls, DestroyWand(DiffWand));
    assert {Wand1, Wand2} + {DiffWand} - {DiffWand} == {Wand1, Wand2};
  }

  /** The set-up every comparison starts with: `MagickWandGenesis` and two
      `NewMagickWand` calls. */
  lemma SetUp()
    ensures Live([Genesis, NewWand(Wand1), NewWand(Wand2)]) == {Wand1, Wand2}
    ensures Active([Genesis, NewWand(Wand1), NewWand(Wand2)]) == 1
  {
    CallSnoc([], Genesis);
    CallSnoc([Genesis], NewWand(Wand1));
    CallSnoc([Genesis, NewWand(Wand1)], NewWand(Wand2));
    assert [] + [Genesis] == [Genesis];
    assert [Genesis] + [NewWand(Wand1)] == [Genesis, NewWand(Wand1)];
    assert [Genesis, NewWand(Wand1)] + [NewWand(Wand2)] == [Genesis, NewWand(Wand1), NewWand(Wand2)];
  }

  predicate SameSize(a: Image, b: Image) {
    a.width == b.width && a.height == b.height
  }

  /** The common opening of both versions: set up the library, allocate two
      wands and read the images. The `||` skips the second read when the
      first fails. */
  method ReadImages(path1: string, path2: string, decode: string -> Option<Image>)
    returns (img1: Option<Image>, img2: Option<Image>, ghost calls: seq<WandCall>)
    ensures img1 == decode(path1)
    ensures img2 == if img1.Some? then decode(path2) else None
    ensures Live(calls) == {Wand1, Wand2} && Active(calls) == 1
    ensures ReadImage(Wand2, path2) in calls <==> img1.Some?
    ensures forall r :: CompareImages(r) !in calls
  {
    calls := [Genesis, NewWand(Wand1), NewWand(Wand2)];
    SetUp();
    img1 := decode(path1);
    CallSnoc(calls, ReadImage(Wand1, path1));
    calls := calls + [ReadImage(Wand1, path1)];
    img2 := None;
    if img1.Some? {
      img2 := decode(path2);
      CallSnoc(calls, ReadImage(Wand2, path2));
      calls := calls + [ReadImage(Wand2, path2)];
    }
  }

  /** `AreImagesDifferent`, as written. `distortion` is the value the
      caller's `double` holds on entry and `distortionOut` the value it holds
      on return; `decode` stands for `MagickReadImage` and `rmse` for
      `MagickCompareImages` with `RootMeanSquaredErrorMetric` (`None` is a
      null result). */
  method AreImagesDifferent(path1: string, path2: string, distortion: real,
                            decode: string -> Option<Image>, rmse: (Image, Image) -> Option<real>)
    returns (different: bool, distortionOut: real, ghost calls: seq<WandCall>)
    ensures decode(path1).None? || decode(path2).None? ==> different && distortionOut == distortion
    ensures decode(path1).Some? && decode(path2).Some? && !SameSize(decode(path1).value, decode(path2).value) ==>
              different && distortionOut == distortion
    ensures decode(path1).Some? && decode(path2).Some? && SameSize(decode(path1).value, decode(path2).value) ==>
              var metric := rmse(decode(path1).value, decode(path2).value);
              && (metric.None? ==> different && distortionOut == 0.0)
              && (metric.Some? ==> different == (metric.value != 0.0) && distortionOut == metric.value)
    // The wand log: which calls were made and what is still allocated.
    ensures ReadImage(Wand2, path2) in calls <==> decode(path1).Some?
    ensures decode(path1).None? || decode(path2).None? ==>
              Released(calls) && forall r :: CompareImages(r) !in calls
    ensures decode(path1).Some? && decode(path2).Some? && !SameSize(decode(path1).value, decode(path2).value) ==>
              Released(calls) && forall r :: CompareImages(r) !in calls
    ensures decode(path1).Some? && decode(path2).Some? && SameSize(decode(path1).value, decode(path2).value) ==>
              var metric := rmse(decode(path1).value, decode(path2).value);
              && (metric.None? ==> Released(calls))
              && (metric.Some? ==> Live(calls) == {Wand1, Wand2, DiffWand} && Active(calls) == 1)
  {
    var img1, img2;
    img1, img2, calls := ReadImages(path1, path2, decode);
    distortionOut := distortion;
    if img1.None? || img2.None? {
      ReleaseBoth(calls);
      calls := calls + [DestroyWand(Wand1), DestroyWand(Wand2), Terminus];
      return true, distortionOut, calls;
    }

    var a, b := img1.value, img2.value;
    if a.width != b.width || a.height != b.height {
      ReleaseBoth(calls);
      calls := calls + [DestroyWand(Wand1), DestroyWand(Wand2), Terminus];
      return true, distortionOut, calls;
    }

    distortionOut := 0.0;
    var metric := rmse(a, b);
    if metric.None? {
      CallSnoc(calls, CompareImages(None));
      calls := calls + [CompareImages(None)];
      ReleaseBoth(calls);
      calls := calls + [DestroyWand(Wand1), DestroyWand(Wand2), Terminus];
      return true, distortionOut, calls;
    }
    CallSnoc(calls, CompareImages(Some(DiffWand)));
    calls := calls + [CompareImages(Some(DiffWand))];
    distortionOut := metric.value;
    different := distortionOut != 0.0;
  }

  /** Two readable images of one size with zero distortion: the call
      returns "not different" and leaves three wands allocated and the
      library set up. */
  method LeakOnMatchingImages() returns (different: bool, ghost leaked: set<nat>)
    ensures !different && leaked == {Wand1, Wand2, DiffWand}
  {
    var image := Image(1, 1, 0);
    var d;
    ghost var calls;
    different, d, calls := AreImagesDifferent("a.png", "a_new.png", 0.0,
                                              path => Some(image), (x, y) => Some(0.0));
    leaked := Live(calls);
  }

  /** `AreImagesDifferent` with the release the early returns perform also
      done before the last return: the difference image, both image wands
      and the library are released on every path. */
  method AreImagesDifferentReleasing(path1: string, path2: string, distortion: real,
                                     decode: string -> Option<Image>, rmse: (Image, Image) -> Option<real>)
    returns (different: bool, distortionOut: real, ghost calls: seq<WandCall>)
    ensures decode(path1).None? || decode(path2).None? ==> different && distortionOut == distortion
    ensures decode(path1).Some? && decode(path2).Some? && !SameSize(decode(path1).value, decode(path2).value) ==>
              different && distortionOut == distortion
    ensures decode(path1).Some? && decode(path2).Some? && SameSize(decode(path1).value, decode(path2).value) ==>
              var metric := rmse(decode(path1).value, decode(path2).value);
              && (metric.None? ==> different && distortionOut == 0.0)
              && (metric.Some? ==> different == (metric.value != 0.0) && distortionOut == metric.value)
    // The wand log: every path releases everything it allocated.
    ensures Released(calls)
    ensures ReadImage(Wand2, path2) in calls <==> decode(path1).Some?
    ensures decode(path1).None? || decode(path2).None? ==> forall r :: CompareImages(r) !in calls
    ensures decode(path1).Some? && decode(path2).Some? && !SameSize(decode(path1).value, decode(path2).value) ==>
              forall r :: CompareImages(r) !in calls
  {
    var img1, img2;
    img1, img2, calls := ReadImages(path1, path2, decode);
    distortionOut := distortion;
    if img1.None? || img2.None? {
      ReleaseBoth(calls);
      calls := calls + [DestroyWand(Wand1), DestroyWand(Wand2), Terminus];
      return true, distortionOut, calls;
    }

    var a, b := img1.value, img2.value;
    if a.width != b.width || a.height != b.height {
      ReleaseBoth(calls);
      calls := calls + [DestroyWand(Wand1), DestroyWand(Wand2), Terminus];
      return true, distortionOut, calls;
    }

    distortionOut := 0.0;
    var metric := rmse(a, b);
    if metric.None? {
      CallSnoc(calls, CompareImages(None));
      calls := calls + [CompareImages(None)];
      ReleaseBoth(calls);
      calls := calls + [DestroyWand(Wand1), DestroyWand(Wand2), Terminus];
      return true, distortionOut, calls;
    }
    CallSnoc(calls, CompareImages(Some(DiffWand)));
    calls := calls + [CompareImages(Some(DiffWand))];
    distortionOut := metric.value;
    different := distortionOut != 0.0;
    ReleaseDiff(calls);
    calls := calls + [DestroyWand(DiffWand)];
    ReleaseBoth(calls);
    calls := calls + [DestroyWand(Wand1), DestroyWand(Wand2), Terminus];
  }
}
