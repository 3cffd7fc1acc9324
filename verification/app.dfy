/**
  The console script: listen for one spoken command; on one of three
  phrases, photograph to `captured_image.jpg`, then caption whatever that
  file holds and speak the caption.
 */
module App {
  import opened Text
  import opened Media

  /** `captured_image.jpg` before or after a run: the frame last written there, if any. */
  type ImageFile = Option<Frame>

  /** What a step leaves on disk and what it did on the way. */
  datatype Outcome = Outcome(file: ImageFile, events: seq<Event>)

  /** The phrase test of `listen_for_command`, on the lower-cased transcript. */
  function Matches(command: string): (b: bool)
    ensures b <==>
              || Occurs(command, "take picture")
              || Occurs(command, "click picture")
              || Occurs(command, "take a picture from my webcam")
  {
    ContainsIffOccurs(command, "take picture");
    ContainsIffOccurs(command, "click picture");
    ContainsIffOccurs(command, "take a picture from my webcam");
    || Contains(command, "take picture")
    || Contains(command, "click picture")
    || Contains(command, "take a picture from my webcam")
  }

  /** A successful read: the webcam opened and its first read returned a frame. */
  predicate ReadSucceeds(cam: Camera) {
    cam.opens && cam.read(0).Some?
  }

  /**
    `take_picture`: open the webcam; if it did not open, report and stop
    without reading or releasing. Otherwise read once; a frame is written to
    the file, a failed read is reported; either way the webcam is released.
   */
  function TakePicture(cam: Camera, file: ImageFile): (r: Outcome)
    ensures |r.events| >= 2 && r.events[0] == Open
    ensures !cam.opens ==> r == Outcome(file, [Open, Notify(WebcamUnavailable)])
    ensures cam.opens ==>
              && |r.events| == 4
              && r.events[1] == Read(0)
              && r.events[3] == Release
              && r.events[2] == (if ReadSucceeds(cam) then WriteFile(cam.read(0).value) else Notify(CaptureFailed))
    ensures ReadSucceeds(cam) ==> r.file == cam.read(0)
    ensures !ReadSucceeds(cam) ==> r.file == file
    ensures forall i :: 0 <= i < |r.events| && r.events[i].WriteFile? ==>
              ReadSucceeds(cam) && r.events[i].frame == cam.read(0).value
    ensures Silent(r.events) && ReadFile !in r.events
  {
    if !cam.opens then Outcome(file, [Open, Notify(WebcamUnavailable)])
    else
      match cam.read(0)
      case Some(frame) => Outcome(Some(frame), [Open, Read(0), WriteFile(frame), Release])
      case None => Outcome(file, [Open, Read(0), Notify(CaptureFailed), Release])
  }

  /**
    `generate_caption_from_file`: read the file back; caption and speak what
    it holds, or report that there is no image. `caption` stands for the
    colour conversion and the captioning model together.
   */
  function GenerateCaptionFromFile(file: ImageFile, caption: Frame -> string): (events: seq<Event>)
    ensures |events| == 2 && events[0] == ReadFile
    ensures file.Some? ==> events[1] == Speak(caption(file.value))
    ensures file.None? <==> events[1] == Notify(NoImageFound)
    ensures file.None? <==> Silent(events)
    ensures NoCamera(events)
  {
    match file
    case Some(frame) => [ReadFile, Speak(caption(frame))]
    case None => [ReadFile, Notify(NoImageFound)]
  }

  /**
    `listen_for_command`: one utterance. A recognised command that matches a
    phrase runs the capture and then the captioning, whether or not the
    capture worked; any other command does nothing; a recognition failure
    only prints its message.
   */
  function ListenForCommand(heard: Recognition, cam: Camera, file: ImageFile, caption: Frame -> string): (r: Outcome)
    ensures !heard.Heard? ==> r.file == file && |r.events| == 1 && r.events[0].Notify?
    ensures heard.Heard? && !Matches(Lower(heard.text)) ==> r == Outcome(file, [])
    ensures r.file != file ==> ReadSucceeds(cam) && r.file == cam.read(0)
  {
    match heard
    case Heard(text) =>
      if Matches(Lower(text)) then
        var shot := TakePicture(cam, file);
        Outcome(shot.file, shot.events + GenerateCaptionFromFile(shot.file, caption))
      else Outcome(file, [])
    case Unintelligible => Outcome(file, [Notify(NotUnderstood)])
    case ServiceError => Outcome(file, [Notify(RequestFailed)])
  }

  /** The command carries one of the three phrases once lower-cased. */
  predicate Triggered(heard: Recognition) {
    heard.Heard? && Matches(Lower(heard.text))
  }

  /** A triggered run's trace: the capture's events, then the captioning's. */
  lemma TriggeredTrace(heard: Recognition, cam: Camera, file: ImageFile, caption: Frame -> string)
    requires Triggered(heard)
    ensures var shot := TakePicture(cam, file);
            var r := ListenForCommand(heard, cam, file, caption);
            && r.file == shot.file
            && r.events == shot.events + GenerateCaptionFromFile(shot.file, caption)
  {
  }

  /** The captioning runs, and the webcam is opened, exactly when the command is triggered. */
  lemma CaptionIffTriggered(heard: Recognition, cam: Camera, file: ImageFile, caption: Frame -> string)
    ensures var r := ListenForCommand(heard, cam, file, caption);
            && (ReadFile in r.events <==> Triggered(heard))
            && (Open in r.events <==> Triggered(heard))
  {
    var r := ListenForCommand(heard, cam, file, caption);
    if Triggered(heard) {
      TriggeredTrace(heard, cam, file, caption);
      var shot := TakePicture(cam, file);
      assert r.events[0] == Open;
      assert r.events[|shot.events|] == ReadFile;
    }
  }

  /**
    On a triggered command the capture is finished before the captioning
    starts: the file is read exactly once, and every webcam call and file
    write comes before that read.
   */
  lemma CaptureBeforeCaption(heard: Recognition, cam: Camera, file: ImageFile, caption: Frame -> string)
    requires Triggered(heard)
    ensures var r := ListenForCommand(heard, cam, file, caption);
            exists i :: 0 <= i < |r.events| && r.events[i] == ReadFile
                     && Count(r.events, ReadFile) == 1
                     && forall j :: 0 <= j < |r.events| && (IsCameraEvent(r.events[j]) || r.events[j].WriteFile?) ==> j < i
  {
    var r := ListenForCommand(heard, cam, file, caption);
    var shot := TakePicture(cam, file);
    var after := GenerateCaptionFromFile(shot.file, caption);
    TriggeredTrace(heard, cam, file, caption);
    var i := |shot.events|;
    assert r.events[i] == ReadFile;
    CountAppend(shot.events, after, ReadFile);
    assert Count(after, ReadFile) == 1 by {
      assert after == [ReadFile] + [after[1]];
      CountAppend([ReadFile], [after[1]], ReadFile);
    }
    forall j | 0 <= j < |r.events| && (IsCameraEvent(r.events[j]) || r.events[j].WriteFile?)
      ensures j < i
    {
    }
  }

  /** A failed recognition prints its message and touches neither the webcam nor the file. */
  lemma RecognitionFailureOnlyReports(heard: Recognition, cam: Camera, file: ImageFile, caption: Frame -> string)
    requires !heard.Heard?
    ensures var r := ListenForCommand(heard, cam, file, caption);
            && r.file == file
            && r.events == [Notify(if heard.Unintelligible? then NotUnderstood else RequestFailed)]
  {
  }

  /** A fresh frame replaces the file and is what gets captioned and spoken, last. */
  lemma FreshShotCaptioned(heard: Recognition, cam: Camera, file: ImageFile, caption: Frame -> string)
    requires Triggered(heard) && ReadSucceeds(cam)
    ensures var r := ListenForCommand(heard, cam, file, caption);
            && r.file == cam.read(0)
            && WriteFile(cam.read(0).value) in r.events
            && r.events[|r.events| - 1] == Speak(caption(cam.read(0).value))
  {
    TriggeredTrace(heard, cam, file, caption);
    var r := ListenForCommand(heard, cam, file, caption);
    assert r.events[2] == WriteFile(cam.read(0).value);
  }

  /**
    When the capture fails the file keeps its old content: an earlier
    picture is captioned and spoken as if it were new.
   */
  lemma StaleImageCaptioned(heard: Recognition, cam: Camera, earlier: Frame, caption: Frame -> string)
    requires Triggered(heard) && !ReadSucceeds(cam)
    ensures var r := ListenForCommand(heard, cam, Some(earlier), caption);
            && r.file == Some(earlier)
            && r.events[|r.events| - 1] == Speak(caption(earlier))
            && forall i :: 0 <= i < |r.events| ==> !r.events[i].WriteFile?
  {
    TriggeredTrace(heard, cam, Some(earlier), caption);
    var r := ListenForCommand(heard, cam, Some(earlier), caption);
    var shot := TakePicture(cam, Some(earlier));
    forall i | 0 <= i < |r.events| ensures !r.events[i].WriteFile? {
      if i < |shot.events| {
        assert r.events[i] == shot.events[i];
      }
    }
  }

  /** With no file and a failed capture, "No image found!" is reported and nothing is spoken. */
  lemma NoImageNoSpeech(heard: Recognition, cam: Camera, caption: Frame -> string)
    requires Triggered(heard) && !ReadSucceeds(cam)
    ensures var r := ListenForCommand(heard, cam, None, caption);
            && r.file == None
            && r.events[|r.events| - 1] == Notify(NoImageFound)
            && Silent(r.events)
  {
    TriggeredTrace(heard, cam, None, caption);
    var r := ListenForCommand(heard, cam, None, caption);
    var shot := TakePicture(cam, None);
    forall i | 0 <= i < |r.events| ensures !r.events[i].Speak? {
      if i < |shot.events| {
        assert r.events[i] == shot.events[i];
      } else {
        assert r.events[i] == GenerateCaptionFromFile(None, caption)[i - |shot.events|];
      }
    }
  }

  /**
    The long phrase is a trigger of its own: it matches, although it does
    not contain "take picture".
   */
  lemma WebcamPhraseStandsAlone()
    ensures Matches("take a picture from my webcam")
    ensures !Contains("take a picture from my webcam", "take picture")
  {
    var s := "take a picture from my webcam";
    var w := "take picture";
    ContainsAt(s, s, 0);
    forall m: nat | m + |w| <= |s| ensures !MatchesFrom(s, w, m, 0) {
      // "take a" differs from "take p" in its sixth character; the 't' of "picture" is followed by 'u'
      MismatchAt(s, w, m, if m == 0 then 5 else if m == 10 then 1 else 0);
    }
    NoPlacementFrom(s, w, 0);
  }

  /** The transcript is lower-cased first, so capitals never decide whether a phrase matches. */
  lemma TriggerIgnoresCase(text: string)
    ensures Triggered(Heard(text)) <==> Triggered(Heard(Lower(text)))
  {
    LowerIdempotent(text);
  }
}
