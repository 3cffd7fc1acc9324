/**
  The Streamlit front end: a session record that survives reruns, three
  actions (camera button, upload, voice command), and the keyword
  classifier that turns a spoken command into an action.
 */
module StreamlitApp {
  import opened Text
  import opened Media

  /** The number of frames read and thrown away before the real shot. */
  const WarmUpReads: nat := 5

  /** Where a spoken command leads. */
  datatype Intent = Capture | UploadRedirect | Unknown

  /** A `st.session_state` key: not yet assigned, or holding a value. */
  datatype Slot<T> = Absent | Present(value: T)

  /** The two `st.session_state` keys the app uses. */
  datatype Store = Store(caption: Slot<string>, image: Slot<Option<Image>>)

  /** The session before the first rerun: no key assigned. */
  const Fresh: Store := Store(Absent, Absent)

  /** What `take_picture` hands back, with what it did to the webcam. */
  datatype Shot = Shot(image: Option<Image>, events: seq<Event>)

  /** The part of the page the user works with on one rerun. */
  datatype Action =
    | CaptureTab(pressed: bool, cam: Camera)              // "Take Picture"; `pressed` is the Capture button
    | UploadTab(uploaded: Option<Image>)                  // "Upload Image"; the decoded upload, if any
    | VoiceTab(pressed: bool, heard: Recognition, cam: Camera) // "Use Voice Command"; `pressed` is Start Listening

  /** One rerun's outcome: the session afterwards and what the user saw or heard. */
  datatype Response = Response(store: Store, events: seq<Event>)

  /** `recognize_speech`: the lower-cased transcript, or "" when recognition failed. */
  function RecognizeSpeech(heard: Recognition): (command: string)
    ensures IsLower(command)
    ensures heard.Heard? ==> |command| == |heard.text|
    ensures !heard.Heard? ==> command == ""
    ensures heard.Heard? && IsLower(heard.text) ==> command == heard.text
    ensures heard.Heard? ==> forall i :: 0 <= i < |command| ==> command[i] == LowerChar(heard.text[i])
  {
    match heard
    case Heard(text) =>
      LowerFixesLower(text);
      Lower(text)
    case _ => ""
  }

  /** The error `recognize_speech` shows when recognition fails. */
  function ListenNotes(heard: Recognition): (events: seq<Event>)
    ensures |events| <= 1
    ensures events == [] <==> heard.Heard?
    ensures heard.Unintelligible? ==> Notify(NotUnderstood) in events
    ensures heard.ServiceError? ==> Notify(RequestFailed) in events
    ensures forall e :: e in events ==> e.Notify?
  {
    match heard
    case Heard(_) => []
    case Unintelligible => [Notify(NotUnderstood)]
    case ServiceError => [Notify(RequestFailed)]
  }

  /**
    The keyword test of the voice branch: "take" and "picture" anywhere
    (in either order) mean capture, which outranks "upload"; anything else
    is unknown.
   */
  function Classify(command: string): (i: Intent)
    ensures i == Capture <==> Occurs(command, "take") && Occurs(command, "picture")
    ensures i == UploadRedirect <==>
              !(Occurs(command, "take") && Occurs(command, "picture")) && Occurs(command, "upload")
    ensures i == Unknown <==>
              !(Occurs(command, "take") && Occurs(command, "picture")) && !Occurs(command, "upload")
  {
    ContainsIffOccurs(command, "take");
    ContainsIffOccurs(command, "picture");
    ContainsIffOccurs(command, "upload");
    if Contains(command, "take") && Contains(command, "picture") then Capture
    else if Contains(command, "upload") then UploadRedirect
    else Unknown
  }

  /** The reads `0 .. n-1`, in order. */
  function Reads(n: nat): (events: seq<Event>)
    ensures |events| == n
    ensures forall k :: 0 <= k < n ==> events[k] == Read(k)
  {
    seq(n, (k: int) requires 0 <= k < n => Read(k))
  }

  /** The webcam calls of a shot that opened: `warmUp` throw-away reads, the real read, release. */
  function OpenedCalls(warmUp: nat): (events: seq<Event>)
    ensures |events| == warmUp + 3
    ensures events[0] == Open && events[warmUp + 2] == Release
    ensures forall k :: 0 <= k <= warmUp ==> events[k + 1] == Read(k)
    ensures forall i :: 0 <= i < |events| ==> IsCameraEvent(events[i])
    ensures Count(events, Release) == 1
  {
    var frames := Reads(warmUp + 1);
    CountAppend([Open], frames, Release);
    CountAppend([Open] + frames, [Release], Release);
    [Open] + frames + [Release]
  }

  /** Only webcam calls and the two capture errors appear in a shot's trace. */
  predicate ShotEventsOnly(events: seq<Event>) {
    forall i :: 0 <= i < |events| ==>
      || IsCameraEvent(events[i])
      || events[i] == Notify(WebcamUnavailable)
      || events[i] == Notify(CaptureFailed)
  }

  /**
    `take_picture`: open the webcam; if it did not open, report and give up
    without reading or releasing. Otherwise read five warm-up frames, read
    once more, release, and only then look at the last read: its frame,
    converted to RGB, is the picture.
   */
  function TakePicture(cam: Camera, toRgb: Frame -> Image): (r: Shot)
    ensures |r.events| >= 2 && r.events[0] == Open
    ensures !cam.opens ==> r.image == None && r.events == [Open, Notify(WebcamUnavailable)]
    ensures cam.opens ==>
              && |r.events| >= WarmUpReads + 3
              && (forall k :: 0 <= k <= WarmUpReads ==> r.events[k + 1] == Read(k))
              && r.events[WarmUpReads + 2] == Release
              && r.events[WarmUpReads + 3..] == (if r.image == None then [Notify(CaptureFailed)] else [])
    ensures r.image.Some? <==> cam.opens && cam.read(WarmUpReads).Some?
    ensures r.image.Some? ==> r.image.value == toRgb(cam.read(WarmUpReads).value)
    ensures Count(r.events, Release) == (if cam.opens then 1 else 0)
    ensures ShotEventsOnly(r.events)
  {
    if !cam.opens then Shot(None, [Open, Notify(WebcamUnavailable)])
    else
      var calls := OpenedCalls(WarmUpReads);
      match cam.read(WarmUpReads)
      case None =>
        var failed := calls + [Notify(CaptureFailed)];
        CountAppend(calls, [Notify(CaptureFailed)], Release);
        assert failed[WarmUpReads + 3..] == [Notify(CaptureFailed)];
        Shot(None, failed)
      case Some(frame) => Shot(Some(toRgb(frame)), calls)
  }

  /** The start of `main`: give each missing key its default, leave present keys alone. */
  function Init(s: Store): (r: Store)
    ensures r.caption.Present? && r.image.Present?
    ensures s.caption.Present? ==> r.caption == s.caption
    ensures s.image.Present? ==> r.image == s.image
    ensures s.caption == Absent ==> r.caption == Present("")
    ensures s.image == Absent ==> r.image == Present(None)
  {
    Store(
      if s.caption == Absent then Present("") else s.caption,
      if s.image == Absent then Present(None) else s.image)
  }

  /** Running the initialisation again changes nothing. */
  lemma InitIdempotent(s: Store)
    ensures Init(Init(s)) == Init(s)
  {
  }

  /**
    A new picture, when there is one, is captioned, stored together with its
    caption, and the caption is spoken; with no picture the session is kept.
   */
  function Adopt(s: Store, picture: Option<Image>, before: seq<Event>, caption: Image -> string): (r: Response)
    ensures picture == None ==> r == Response(s, before)
    ensures picture.Some? ==>
              && r.store == Store(Present(caption(picture.value)), Present(Some(picture.value)))
              && r.events == before + [Speak(caption(picture.value))]
  {
    match picture
    case None => Response(s, before)
    case Some(img) =>
      var text := caption(img);
      Response(Store(Present(text), Present(Some(img))), before + [Speak(text)])
  }

  /** One rerun of `main`: initialise the session, then act on the chosen tab. */
  function Run(s: Store, action: Action, toRgb: Frame -> Image, caption: Image -> string): (r: Response)
    ensures r.store.caption.Present? && r.store.image.Present?
    ensures || r.store == Init(s)
            || (r.store.image.value.Some? && r.store.caption.value == caption(r.store.image.value.value))
  {
    var init := Init(s);
    match action
    case CaptureTab(pressed, cam) =>
      if !pressed then Response(init, [])
      else
        var shot := TakePicture(cam, toRgb);
        Adopt(init, shot.image, shot.events, caption)
    case UploadTab(uploaded) =>
      Adopt(init, uploaded, [], caption)
    case VoiceTab(pressed, heard, cam) =>
      if !pressed then Response(init, [])
      else
        var command := RecognizeSpeech(heard);
        var listened := ListenNotes(heard);
        match Classify(command)
        case Capture =>
          var shot := TakePicture(cam, toRgb);
          Adopt(init, shot.image, listened + shot.events, caption)
        case UploadRedirect => Response(init, listened + [Notify(UseUploadTab)])
        case Unknown => Response(init, listened + [Notify(UnknownCommand)])
  }

  /** "take" and "picture" may come in either order, with anything around and between them. */
  lemma CaptureInEitherOrder(a: string, b: string, c: string)
    ensures Classify(a + "take" + b + "picture" + c) == Capture
    ensures Classify(a + "picture" + b + "take" + c) == Capture
  {
    var s1 := a + "take" + b + "picture" + c;
    assert s1 == a + "take" + (b + "picture" + c);
    ContainsInfix(a, "take", b + "picture" + c);
    ContainsInfix(a + "take" + b, "picture", c);
    ContainsIffOccurs(s1, "take");
    ContainsIffOccurs(s1, "picture");
    var s2 := a + "picture" + b + "take" + c;
    assert s2 == a + "picture" + (b + "take" + c);
    ContainsInfix(a, "picture", b + "take" + c);
    ContainsInfix(a + "picture" + b, "take", c);
    ContainsIffOccurs(s2, "take");
    ContainsIffOccurs(s2, "picture");
  }

  /** The keywords are bare substrings, so "take" hidden inside "mistake" counts. */
  lemma KeywordInsideWord()
    ensures Classify("mistake in this picture") == Capture
  {
    ContainsAt("mistake in this picture", "take", 3);
    ContainsAt("mistake in this picture", "picture", 16);
  }

  /** "upload" without "take" leads to the upload hint, even with "picture" present. */
  lemma UploadWithoutTake()
    ensures Classify("upload a picture") == UploadRedirect
  {
    var s := "upload a picture";
    ContainsAt(s, "upload", 0);
    ContainsAt(s, "picture", 9);
    forall m: nat | m + 4 <= |s| ensures !MatchesFrom(s, "take", m, 0) {
      MismatchAt(s, "take", m, if m == 12 then 1 else 0);  // the only 't' is in "picture"
    }
    NoPlacementFrom(s, "take", 0);
  }

  /** Only the word "picture" will do: "take a photo" is an unknown command. */
  lemma PhotoIsUnknown()
    ensures Classify("take a photo") == Unknown
  {
    var s := "take a photo";
    forall m: nat | m + 7 <= |s| ensures !MatchesFrom(s, "picture", m, 0) {
      MismatchAt(s, "picture", m, 0);
    }
    NoPlacementFrom(s, "picture", 0);
    forall m: nat | m + 6 <= |s| ensures !MatchesFrom(s, "upload", m, 0) {
      MismatchAt(s, "upload", m, 0);
    }
    NoPlacementFrom(s, "upload", 0);
  }

  /** A failed recognition yields "", which no keyword matches. */
  lemma FailedRecognitionIsUnknown(heard: Recognition)
    ensures !heard.Heard? ==> Classify(RecognizeSpeech(heard)) == Unknown
  {
  }

  /** The trace of a capture that went through `Adopt`: the shot's calls, then perhaps the caption. */
  lemma AdoptedShotEvents(s: Store, shot: Shot, caption: Image -> string)
    requires ShotEventsOnly(shot.events)
    ensures var r := Adopt(s, shot.image, shot.events, caption);
            && Notify(UseUploadTab) !in r.events
            && Notify(UnknownCommand) !in r.events
            && (shot.image == None ==> Silent(r.events))
  {
    var r := Adopt(s, shot.image, shot.events, caption);
    forall i | 0 <= i < |r.events|
      ensures r.events[i] != Notify(UseUploadTab) && r.events[i] != Notify(UnknownCommand)
    {
      if i < |shot.events| {
        assert r.events[i] == shot.events[i];
      }
    }
    if shot.image == None {
      forall i | 0 <= i < |r.events| ensures !r.events[i].Speak? {
        assert r.events[i] == shot.events[i];
      }
    }
  }

  /** A voice command that is not a capture shows its warning and nothing else happens. */
  lemma VoiceWarning(s: Store, heard: Recognition, cam: Camera, toRgb: Frame -> Image, caption: Image -> string)
    requires Classify(RecognizeSpeech(heard)) != Capture
    ensures var r := Run(s, VoiceTab(true, heard, cam), toRgb, caption);
            var warning := if Classify(RecognizeSpeech(heard)) == UploadRedirect then UseUploadTab else UnknownCommand;
            && r.store == Init(s)
            && r.events == ListenNotes(heard) + [Notify(warning)]
            && NoCamera(r.events)
            && Silent(r.events)
  {
    var r := Run(s, VoiceTab(true, heard, cam), toRgb, caption);
    var listened := ListenNotes(heard);
    forall i | 0 <= i < |r.events| ensures r.events[i].Notify? {
      if i < |listened| {
        assert r.events[i] == listened[i];
      }
    }
  }

  /** A voice command that is a capture opens the webcam and shows no warning. */
  lemma VoiceCapture(s: Store, heard: Recognition, cam: Camera, toRgb: Frame -> Image, caption: Image -> string)
    requires Classify(RecognizeSpeech(heard)) == Capture
    ensures var r := Run(s, VoiceTab(true, heard, cam), toRgb, caption);
            && Open in r.events
            && Notify(UseUploadTab) !in r.events
            && Notify(UnknownCommand) !in r.events
  {
    FailedRecognitionIsUnknown(heard);
    var shot := TakePicture(cam, toRgb);
    var r := Run(s, VoiceTab(true, heard, cam), toRgb, caption);
    assert ListenNotes(heard) == [];
    assert r == Adopt(Init(s), shot.image, [] + shot.events, caption);
    assert [] + shot.events == shot.events;
    AdoptedShotEvents(Init(s), shot, caption);
    assert r.events[0] == Open;
  }

  /**
    A voice command touches the webcam exactly when it classifies as a
    capture; the upload and unknown outcomes show their own warning.
   */
  lemma VoiceDispatch(s: Store, heard: Recognition, cam: Camera, toRgb: Frame -> Image, caption: Image -> string)
    ensures var r := Run(s, VoiceTab(true, heard, cam), toRgb, caption);
            var intent := Classify(RecognizeSpeech(heard));
            && (intent == Capture <==> Open in r.events)
            && (intent == UploadRedirect <==> Notify(UseUploadTab) in r.events)
            && (intent == Unknown <==> Notify(UnknownCommand) in r.events)
  {
    var r := Run(s, VoiceTab(true, heard, cam), toRgb, caption);
    if Classify(RecognizeSpeech(heard)) == Capture {
      VoiceCapture(s, heard, cam, toRgb, caption);
    } else {
      VoiceWarning(s, heard, cam, toRgb, caption);
      assert !IsCameraEvent(r.events[|r.events| - 1]);
      assert Open !in r.events;
      assert r.events[|r.events| - 1].Notify?;
    }
  }

  /** With a failed recognition only the error and "Unknown command." are shown. */
  lemma FailedRecognitionChangesNothing(s: Store, heard: Recognition, cam: Camera, toRgb: Frame -> Image, caption: Image -> string)
    requires !heard.Heard?
    ensures Run(s, VoiceTab(true, heard, cam), toRgb, caption)
            == Response(Init(s), ListenNotes(heard) + [Notify(UnknownCommand)])
  {
    FailedRecognitionIsUnknown(heard);
  }

  /**
    A capture (by button or by voice) that yields a picture stores it with its
    caption and speaks that caption last; one that yields none leaves the
    session as initialised and says nothing.
   */
  lemma CaptureUpdatesPair(s: Store, action: Action, toRgb: Frame -> Image, caption: Image -> string)
    requires action.CaptureTab? || action.VoiceTab?
    requires action.pressed
    requires action.VoiceTab? ==> Classify(RecognizeSpeech(action.heard)) == Capture
    ensures var r := Run(s, action, toRgb, caption);
            match TakePicture(action.cam, toRgb).image
            case Some(img) =>
              && r.store == Store(Present(caption(img)), Present(Some(img)))
              && r.events[|r.events| - 1] == Speak(caption(img))
            case None => r.store == Init(s) && Silent(r.events)
  {
    var shot := TakePicture(action.cam, toRgb);
    if action.VoiceTab? {
      FailedRecognitionIsUnknown(action.heard);
    }
    assert Run(s, action, toRgb, caption) == Adopt(Init(s), shot.image, shot.events, caption);
    AdoptedShotEvents(Init(s), shot, caption);
  }

  /** An upload is stored with its caption; no upload leaves the session alone. */
  lemma UploadUpdatesPair(s: Store, uploaded: Option<Image>, toRgb: Frame -> Image, caption: Image -> string)
    ensures var r := Run(s, UploadTab(uploaded), toRgb, caption);
            match uploaded
            case Some(img) =>
              r.store == Store(Present(caption(img)), Present(Some(img))) && r.events == [Speak(caption(img))]
            case None => r.store == Init(s) && r.events == []
  {
  }

  /** The stored caption belongs to the stored picture: "" with no picture. */
  predicate Paired(st: Store, caption: Image -> string) {
    && st.caption.Present? && st.image.Present?
    && match st.image.value
       case None => st.caption.value == ""
       case Some(img) => st.caption.value == caption(img)
  }

  /** The session after Streamlit reruns the script once per action, in order. */
  function Replay(s: Store, actions: seq<Action>, toRgb: Frame -> Image, caption: Image -> string): (r: Store)
    ensures actions != [] ==> r.caption.Present? && r.image.Present?
    decreases |actions|
  {
    if actions == [] then s
    else Replay(Run(s, actions[0], toRgb, caption).store, actions[1..], toRgb, caption)
  }

  /** One rerun keeps caption and picture paired. */
  lemma RunKeepsPairing(s: Store, action: Action, toRgb: Frame -> Image, caption: Image -> string)
    requires s == Fresh || Paired(s, caption)
    ensures Paired(Run(s, action, toRgb, caption).store, caption)
  {
  }

  /** From a fresh session, every sequence of reruns keeps caption and picture paired. */
  lemma {:induction false} ReplayKeepsPairing(s: Store, actions: seq<Action>, toRgb: Frame -> Image, caption: Image -> string)
    requires s == Fresh || Paired(s, caption)
    ensures actions != [] ==> Paired(Replay(s, actions, toRgb, caption), caption)
    decreases |actions|
  {
    if actions != [] {
      var next := Run(s, actions[0], toRgb, caption).store;
      RunKeepsPairing(s, actions[0], toRgb, caption);
      ReplayKeepsPairing(next, actions[1..], toRgb, caption);
    }
  }
}
