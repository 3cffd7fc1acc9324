/**
  The collaborators both scripts talk to — webcam, speech recogniser,
  speaker, image file — reduced to the values they hand back and to a trace
  of the observable things the scripts do with them.
 */
module Media {

  datatype Option<T> = None | Some(value: T)

  /** A BGR frame as the webcam delivers it; an opaque handle. */
  datatype Frame = Frame(handle: nat)

  /** An RGB picture (PIL image) as the captioning model consumes it; an opaque handle. */
  datatype Image = Image(handle: nat)

  /**
    Webcam device 0: whether `isOpened()` holds once it is constructed, and
    the outcome of its k-th `read()` (counting from 0), `None` when `ret` is false.
   */
  datatype Camera = Camera(opens: bool, read: nat -> Option<Frame>)

  /** The outcome of `recognize_google` on one utterance. */
  datatype Recognition =
    | Heard(text: string)   // the recogniser's transcript, as it returned it
    | Unintelligible        // `sr.UnknownValueError`
    | ServiceError          // `sr.RequestError`

  /** Messages the scripts show or print that matter to the user. */
  datatype Note =
    | WebcamUnavailable
    | CaptureFailed
    | NotUnderstood
    | RequestFailed
    | UseUploadTab
    | UnknownCommand
    | NoImageFound

  /** One observable effect, in the order the script performs it. */
  datatype Event =
    | Open                   // `cv2.VideoCapture(0)`
    | Read(index: nat)       // the index-th `cap.read()`
    | Release                // `cap.release()`
    | WriteFile(frame: Frame) // `cv2.imwrite('captured_image.jpg', frame)`
    | ReadFile               // `cv2.imread('captured_image.jpg')`
    | Speak(text: string)    // text-to-speech
    | Notify(note: Note)     // a warning or error shown to the user

  /** Events that touch the webcam. */
  predicate IsCameraEvent(e: Event) {
    e.Open? || e.Read? || e.Release?
  }

  /** A trace in which the webcam is never touched. */
  predicate NoCamera(events: seq<Event>) {
    forall i :: 0 <= i < |events| ==> !IsCameraEvent(events[i])
  }

  /** A trace in which nothing is spoken. */
  predicate Silent(events: seq<Event>) {
    forall i :: 0 <= i < |events| ==> !events[i].Speak?
  }

  /** The number of times `e` happens in `events`. */
  function Count(events: seq<Event>, e: Event): (n: nat)
    ensures n <= |events|
    ensures n == 0 <==> e !in events
  {
    if events == [] then 0
    else (if events[0] == e then 1 else 0) + Count(events[1..], e)
  }

  lemma {:induction false} CountAppend(a: seq<Event>, b: seq<Event>, e: Event)
    ensures Count(a + b, e) == Count(a, e) + Count(b, e)
  {
    if a != [] {
      assert (a + b)[1..] == a[1..] + b;
      CountAppend(a[1..], b, e);
    } else {
      assert a + b == b;
    }
  }
}
