/**
 * `class Session` of Session/Session.cpp: the images of one editing
 * session and the queue of pending commands with its side vectors, each
 * operation proved to agree with the functions of module `SessionSpec`.
 */
module Sessions {
  import opened Pixels
  import opened ImageSpec
  import opened CollageSpec
  import opened SessionSpec
  import Collages

  /**
   * `execute`'s command loop on one image (Session/Session.cpp:53-86):
   * from the image's skip offset to the end of the queue, each command in
   * turn, the `timesCropped`-th crop rectangle read from index
   * `4 * timesCropped` of `crops`.
   */
  method ReplayCommands(s: ImageState, cs: seq<Command>, crops: seq<nat>, gray: PixelValue -> nat) returns (r: ImageState)
    requires s.Valid() && GrayBounded(gray) && 4 * Count(cs, Cropp) <= |crops|
    ensures (DropCount(cs, s.commandsToSkip, Cropp); r == ReplayFrom(s, cs, s.commandsToSkip, 0, crops, gray))
  {
    DropCount(cs, s.commandsToSkip, Cropp);
    r := s;
    var timesCropped := 0;
    var j := s.commandsToSkip;
    while j < |cs|
      invariant r.Valid() && 4 * (timesCropped + Count(Drop(cs, j), Cropp)) <= |crops|
      invariant ReplayFrom(r, cs, j, timesCropped, crops, gray) == ReplayFrom(s, cs, s.commandsToSkip, 0, crops, gray)
      decreases |cs| - j
    {
      DropStep(cs, j, Cropp);
      r := Apply(r, cs[j], crops, timesCropped, gray);
      if cs[j] == Cropp {
        timesCropped := timesCropped + 1;
      }
      j := j + 1;
    }
  }

  /**
   * The loop of `undo` (Session/Session.cpp:240-252): `n` times the last
   * element of `from` is inserted at the front of `to` and popped.
   */
  method MoveLastToFront(from: seq<nat>, to: seq<nat>, n: nat) returns (rest: seq<nat>, moved: seq<nat>)
    requires n <= |from|
    ensures rest == from[..|from| - n] && moved == from[|from| - n..] + to
    ensures rest + moved == from + to
  {
    rest, moved := from, to;
    for i := 0 to n
      invariant rest == from[..|from| - i]
      invariant moved == from[|from| - i..] + to
    {
      assert from[|from| - (i + 1)..] == [rest[|rest| - 1]] + from[|from| - i..];
      moved := [rest[|rest| - 1]] + moved;
      rest := rest[..|rest| - 1];
    }
  }

  /**
   * The loop of `redo` (Session/Session.cpp:269-282): the first `n`
   * elements of `from` are pushed onto `to` in their order, and then
   * erased from `from` (all of it when it is shorter).
   */
  method MoveFrontToBack(from: seq<nat>, to: seq<nat>, n: nat) returns (rest: seq<nat>, moved: seq<nat>)
    requires n <= |from|
    ensures moved == to + from[..n] && rest == from[n..]
    ensures moved + rest == to + from
  {
    moved := to;
    for i := 0 to n
      invariant moved == to + from[..i]
    {
      assert from[..i + 1] == from[..i] + [from[i]];
      moved := moved + [from[i]];
    }
    rest := from[n..];
  }

  /**
   * One collage of `execute` (Session/Session.cpp:89-97): horizontal when
   * a horizontal collage command is pending, else vertical when a vertical
   * one is, else none (an empty image).
   */
  method PendingCollageOf(cs: seq<Command>, s1: ImageState, s2: ImageState) returns (collage: ImageState)
    requires s1.Valid() && s2.Valid()
    ensures collage == PendingCollage(cs, s1, s2)
  {
    collage := EmptyImage;
    if CollageH in cs {
      collage := Collages.CollageOf("horizontal", s1, s2);
    } else if CollageV in cs {
      collage := Collages.CollageOf("vertical", s1, s2);
    }
  }

  /**
   * The collage loop of `execute` (Session/Session.cpp:88-100): each pair
   * at the front of the queued indices gives one collage of the session's
   * images, with the orientation the pending collage command names, until
   * fewer than two indices are left.
   */
  method CollagesOf(images: seq<ImageState>, queued: seq<nat>, cs: seq<Command>)
    returns (saved: seq<ImageState>, left: seq<nat>)
    requires AllImagesValid(images) && IndicesIn(queued, |images|)
    ensures saved == SavedCollages(images, queued, cs)
    ensures left == queued[|queued| - |queued| % 2..]
  {
    saved := [];
    left := queued;
    ghost var pairs := 0;
    while |left| >= 2
      invariant 2 * pairs <= |queued| && left == queued[2 * pairs..]
      invariant IndicesIn(left, |images|)
      invariant saved + SavedCollages(images, left, cs) == SavedCollages(images, queued, cs)
      decreases |left|
    {
      var collage := PendingCollageOf(cs, images[left[0]], images[left[1]]);
      assert IndicesIn(left[2..], |images|);
      assert SavedCollages(images, left, cs) == [collage] + SavedCollages(images, left[2..], cs);
      assert left[2..] == queued[2 * pairs + 2..];
      saved := saved + [collage];
      left := left[2..];
      pairs := pairs + 1;
    }
    LeftAfterPairs(queued, pairs, left);
  }

  /**
   * Once fewer than two indices are left after whole pairs were taken
   * from the front, what is left is the odd last index, if any.
   */
  lemma LeftAfterPairs(queued: seq<nat>, pairs: nat, left: seq<nat>)
    requires 2 * pairs <= |queued| && left == queued[2 * pairs..] && |left| < 2
    ensures left == queued[|queued| - |queued| % 2..]
  {
  }

  /**
   * The search of `queueForCollage` (Session/Session.cpp:221-230): the
   * indices of the first two images named `f1` or `f2`, in order.
   */
  method SearchForCollage(images: seq<ImageState>, f1: string, f2: string) returns (indices: seq<nat>)
    ensures indices == QueuedIndices(images, f1, f2)
  {
    indices := [];
    var i := 0;
    while i < |images| && |indices| < 2
      invariant 0 <= i <= |images|
      invariant indices == MatchIndices(images, f1, f2, i) && |indices| <= 2
    {
      if images[i].filePath == f1 || images[i].filePath == f2 {
        indices := indices + [ToUShort(i)];
      }
      i := i + 1;
    }
    QueuedIndicesStop(images, f1, f2, i);
  }

  /** `class Session` (Session/Session.h:21-55); the session id and its static counter are not modelled. */
  class Session {
    var valid: bool
    var images: seq<ImageState>
    var forCollages: seq<nat>
    var forCollagesHistory: seq<nat>
    var commands: seq<Command>
    var undoneCommands: seq<Command>
    var cropInfo: seq<nat>
    var cropInfoHistory: seq<nat>

    /** The six vectors `undo` and `redo` work on. */
    function Vectors(): Queue
      reads this
    {
      Queue(commands, undoneCommands, cropInfo, cropInfoHistory, forCollages, forCollagesHistory)
    }

    /** `Session()` (Session/Session.cpp:6): no images, nothing pending, not valid. */
    constructor ()
      ensures !valid && images == [] && Vectors() == Queue([], [], [], [], [], [])
    {
      valid := false;
      images, forCollages, forCollagesHistory := [], [], [];
      commands, undoneCommands, cropInfo, cropInfoHistory := [], [], [], [];
    }

    /** `occurances(command)` (Session/Session.cpp:361-372). */
    method Occurrences(command: Command) returns (count: nat)
      ensures count == Count(commands, command)
    {
      count := 0;
      for i := 0 to |commands|
        invariant count == Count(commands[..i], command)
      {
        assert commands[..i + 1] == commands[..i] + [commands[i]];
        CountSnoc(commands[..i], commands[i], command);
        if commands[i] == command {
          count := count + 1;
        }
      }
      assert commands[..|commands|] == commands;
    }

    /**
     * `eraseAll(command)` (Session/Session.cpp:374-384): after an erase
     * the index steps back and forward again, so it stays where it is.
     */
    method EraseAll(command: Command)
      modifies this`commands
      ensures commands == Without(old(commands), command)
    {
      ghost var cs := commands;
      ghost var k := 0;
      var kept := commands;
      var i := 0;
      while i < |kept|
        invariant 0 <= i <= |kept| && k <= |cs|
        invariant kept[..i] == Without(cs[..k], command)
        invariant kept[i..] == cs[k..]
        decreases |kept| - i
      {
        assert cs[..k + 1][..k] == cs[..k];
        assert cs[k] == kept[i] by { assert kept[i..][0] == cs[k..][0]; }
        assert cs[k + 1..] == kept[i + 1..] by { assert cs[k + 1..] == cs[k..][1..]; }
        if kept[i] == command {
          assert (kept[..i] + kept[i + 1..])[..i] == kept[..i];
          assert (kept[..i] + kept[i + 1..])[i..] == kept[i + 1..];
          kept := kept[..i] + kept[i + 1..];
        } else {
          assert kept[..i + 1] == kept[..i] + [kept[i]];
          i := i + 1;
        }
        k := k + 1;
      }
      assert cs[..k] == cs by { assert |cs[k..]| == |kept[i..]| == 0; }
      assert kept[..i] == kept;
      commands := kept;
    }

    /** `eraseFirstOccurance(command)` (Session/Session.cpp:386-396). */
    method EraseFirstOccurrence(command: Command)
      modifies this`commands
      ensures commands == WithoutFirst(old(commands), command)
    {
      var i := 0;
      while i < |commands|
        invariant 0 <= i <= |commands| && commands == old(commands)
        invariant command !in commands[..i]
      {
        if commands[i] == command {
          WithoutFirstAt(commands, command, i);
          commands := commands[..i] + commands[i + 1..];
          return;
        }
        assert commands[..i + 1] == commands[..i] + [commands[i]];
        i := i + 1;
      }
      assert commands[..i] == commands;
      WithoutFirstLaws(commands, command);
    }

    /** `addCommand(command)` (Session/Session.cpp:105-183). */
    method AddCommand(command: string)
      modifies this`commands
      ensures commands == Added(old(commands), command)
    {
      KnownTexts();
      var grayscales := Occurrences(Grayscale);
      var monochromes := Occurrences(Monochrome);
      if command == "grayscale" && grayscales == 0 {
        commands := commands + [Grayscale];
      } else if command == "monochrome" && monochromes == 0 {
        commands := commands + [Monochrome];
      } else if command == "rotate left" {
        var lefts := Occurrences(RotateL);
        if lefts <= 1 {
          commands := commands + [RotateL];
        } else if lefts == 2 {
          EraseAll(RotateL);
          commands := commands + [RotateR];
        }
      } else if command == "rotate right" {
        var rights := Occurrences(RotateR);
        if rights <= 1 {
          commands := commands + [RotateR];
        } else if rights == 2 {
          EraseAll(RotateR);
          commands := commands + [RotateL];
        }
      } else if command == "flip horizontal" {
        var flips := Occurrences(FlipH);
        if flips == 0 {
          commands := commands + [FlipH];
        } else {
          EraseFirstOccurrence(FlipH);
        }
      } else if command == "flip vertical" {
        var flips := Occurrences(FlipV);
        if flips == 0 {
          commands := commands + [FlipV];
        } else {
          EraseFirstOccurrence(FlipV);
        }
      } else if command == "negative" {
        commands := commands + [Negative];
      } else if command == "make collage horizontal" {
        commands := commands + [CollageH];
      } else if command == "make collage vertical" {
        commands := commands + [CollageV];
      } else if command == "crop" {
        commands := commands + [Cropp];
      }
    }

    /**
     * `addImage(filePath)` (Session/Session.cpp:185-190) with the image
     * already read from the file: it skips every command pending now,
     * the count stored as an `unsigned short`.
     */
    method AddImage(loaded: ImageState)
      modifies this`images
      ensures images == old(images) + [loaded.(commandsToSkip := ToUShort(|commands|))]
    {
      images := images + [loaded.(commandsToSkip := ToUShort(|commands|))];
    }

    /** `crop(coordinates)` (Session/Session.cpp:192-198) on the four parsed integers, each stored as an `unsigned short`. */
    method Crop(coordinates: seq<int>)
      requires |coordinates| >= 4
      modifies this`cropInfo
      ensures cropInfo == old(cropInfo) + [ToUShort(coordinates[0]), ToUShort(coordinates[1]),
                                           ToUShort(coordinates[2]), ToUShort(coordinates[3])]
    {
      for i := 0 to 4
        invariant cropInfo == old(cropInfo) + seq(i, k requires 0 <= k < i => ToUShort(coordinates[k]))
      {
        cropInfo := cropInfo + [ToUShort(coordinates[i])];
      }
    }

    /** `containsImage(filePath)` (Session/Session.cpp:398-408). */
    method ContainsImage(filePath: string) returns (found: bool)
      ensures found <==> HasImage(images, filePath)
    {
      for i := 0 to |images|
        invariant forall k :: 0 <= k < i ==> images[k].filePath != filePath
      {
        if images[i].filePath == filePath {
          return true;
        }
      }
      return false;
    }

    /**
     * The checks `queueForCollage` makes before it searches
     * (Session/Session.cpp:202-220), in their order.  A name too short for
     * `substr` is reported instead of throwing.
     */
    method CheckCollageNames(names: seq<string>) returns (outcome: CollageRequest)
      ensures outcome == CollageOutcome(images, names)
    {
      if |names| != 2 {
        return NotTwoNames;
      }
      var has1 := ContainsImage(Stem(names[0]));
      var has2 := ContainsImage(Stem(names[1]));
      if !(has1 && has2) {
        return NotInSession;
      }
      if |names[0]| < 3 || |names[1]| < 3 {
        return NameTooShort;
      }
      var extension1 := names[0][|names[0]| - 3..];
      var extension2 := names[1][|names[1]| - 3..];
      if extension1 != extension2 {
        return DifferentTypes;
      }
      assert extension1 == extension2;
      return Queued;
    }

    /**
     * `queueForCollage(names)` (Session/Session.cpp:200-231): when the
     * names pass the checks, the indices of the first two session images
     * named by either stem are queued.
     */
    method QueueForCollage(names: seq<string>) returns (outcome: CollageRequest)
      modifies this`forCollages
      ensures outcome == CollageOutcome(images, names)
      ensures outcome == Queued ==> forCollages == old(forCollages) + QueuedIndices(images, Stem(names[0]), Stem(names[1]))
      ensures outcome != Queued ==> forCollages == old(forCollages)
    {
      outcome := CheckCollageNames(names);
      if outcome != Queued {
        return;
      }
      var indices := SearchForCollage(images, Stem(names[0]), Stem(names[1]));
      forCollages := forCollages + indices;
    }

    /** `undo()` (Session/Session.cpp:233-260). */
    method Undo()
      requires CanUndo(Vectors())
      modifies this`commands, this`undoneCommands, this`cropInfo, this`cropInfoHistory, this`forCollages,
               this`forCollagesHistory
      ensures Vectors() == SessionSpec.Undo(old(Vectors()))
    {
      if |commands| > 0 {
        var last := commands[|commands| - 1];
        undoneCommands := undoneCommands + [last];
        if last == Cropp {
          cropInfo, cropInfoHistory := MoveLastToFront(cropInfo, cropInfoHistory, 4);
        } else if last == CollageH || last == CollageV {
          forCollages, forCollagesHistory := MoveLastToFront(forCollages, forCollagesHistory, 2);
        }
        commands := commands[..|commands| - 1];
      }
    }

    /** `redo()` (Session/Session.cpp:262-289). */
    method Redo()
      requires CanRedo(Vectors())
      modifies this`commands, this`undoneCommands, this`cropInfo, this`cropInfoHistory, this`forCollages,
               this`forCollagesHistory
      ensures Vectors() == SessionSpec.Redo(old(Vectors()))
    {
      if |undoneCommands| > 0 {
        var last := undoneCommands[|undoneCommands| - 1];
        commands := commands + [last];
        if last == Cropp {
          var history;
          history, cropInfo := MoveFrontToBack(cropInfoHistory, cropInfo, 4);
          cropInfoHistory := if |cropInfoHistory| >= 4 then history else [];
        } else if last == CollageH || commands[|commands| - 1] == CollageV {
          assert IsCollage(last);
          var history;
          history, forCollages := MoveFrontToBack(forCollagesHistory, forCollages, 2);
          forCollagesHistory := if |forCollagesHistory| >= 2 then history else [];
        }
        undoneCommands := undoneCommands[..|undoneCommands| - 1];
      }
    }

    /** `clearUndoneCommands()` (Session/Session.cpp:291-295). */
    method ClearUndoneCommands()
      modifies this`undoneCommands
      ensures undoneCommands == []
      ensures Balanced(old(Vectors())) ==> Balanced(Vectors())
    {
      undoneCommands := [];
    }

    /**
     * The clean-up at the top of `execute`'s image loop
     * (Session/Session.cpp:46-51): as many left turns as right turns,
     * and at least one, cancel and are all erased.
     */
    method CancelTurns()
      modifies this`commands
      ensures commands == Normalized(old(commands))
    {
      var lefts := Occurrences(RotateL);
      var rights := Occurrences(RotateR);
      if lefts == rights && lefts != 0 {
        EraseAll(RotateL);
        EraseAll(RotateR);
      }
    }

    /**
     * `execute()` (Session/Session.cpp:38-103), with `gray` the gray value
     * of `toGrayscale` and the saved collages returned instead of written.
     * On an empty queue nothing happens.  Otherwise every image is replayed
     * from its skip offset on the cleaned-up queue, every pair of queued
     * indices gives one saved collage, a lone last index stays queued, and
     * the queue is emptied; the crop rectangles stay where they are.
     */
    method Execute(gray: PixelValue -> nat) returns (saved: seq<ImageState>)
      requires AllImagesValid(images) && GrayBounded(gray)
      requires 4 * Count(commands, Cropp) <= |cropInfo| && IndicesIn(forCollages, |images|)
      modifies this`images, this`commands, this`forCollages
      ensures old(commands) == [] ==> images == old(images) && commands == [] && forCollages == old(forCollages) && saved == []
      ensures old(commands) != [] ==>
        && images == Replayed(old(images), if old(images) == [] then old(commands) else Normalized(old(commands)), cropInfo, gray)
        && saved == SavedCollages(images, old(forCollages), old(commands))
        && forCollages == old(forCollages)[|old(forCollages)| - |old(forCollages)| % 2..]
        && commands == []
    {
      if |commands| == 0 {
        return [];
      }
      ghost var cs0 := commands;
      ReplayImages(gray);
      NormalizedKeepsCollages(cs0);
      SavedCollagesSamePending(images, forCollages, commands, cs0);
      saved, forCollages := CollagesOf(images, forCollages, commands);
      commands := [];
    }

    /**
     * The image loop of `execute` (Session/Session.cpp:44-86): before each
     * image the queue is cleaned up, then the image replays it from its skip
     * offset.  With no images the queue stays as it was.
     */
    method ReplayImages(gray: PixelValue -> nat)
      requires AllImagesValid(images) && GrayBounded(gray) && 4 * Count(commands, Cropp) <= |cropInfo|
      modifies this`images, this`commands
      ensures commands == if old(images) == [] then old(commands) else Normalized(old(commands))
      ensures images == Replayed(old(images), commands, cropInfo, gray)
    {
      ghost var cs0 := commands;
      ghost var cs1 := if images == [] then cs0 else Normalized(cs0);
      NormalizedLaws(cs0);
      ghost var replayed := Replayed(images, cs1, cropInfo, gray);
      var i := 0;
      while i < |images|
        invariant 0 <= i <= |images| == |replayed|
        invariant commands == if i == 0 then cs0 else cs1
        invariant forall k :: 0 <= k < i ==> images[k] == replayed[k]
        invariant forall k :: i <= k < |images| ==> images[k] == old(images)[k]
      {
        CancelTurns();
        assert commands == cs1;
        var image := ReplayCommands(images[i], commands, cropInfo, gray);
        images := images[i := image];
        i := i + 1;
      }
      assert images == replayed;
    }
  }
}
