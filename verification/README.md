# Snap-Sense voice-command dispatch, in Dafny

Snap-Sense captions a still image and reads the caption aloud. The image
comes from a webcam, a file upload or a spoken command. Two scripts do this
independently:

- `streamlit_app.py` is a Streamlit page. Its session keeps two keys,
  `caption` and `image`. A select box offers "Take Picture", "Upload
  Image" and "Use Voice Command"; the "Capture" button, the upload box and
  the "Start Listening" button of those choices fill the keys. The voice command is classified by
  bare keywords: "take" and "picture" anywhere mean capture, which outranks
  "upload"; anything else is unknown. `take_picture` opens webcam 0, reads
  five warm-up frames, reads the real one, releases the device, and only
  then checks the read.
- `app.py` is a console script. It listens for one command. On one of three
  phrases it photographs to `captured_image.jpg`, reads that file back,
  captions it and speaks the caption. The read-back happens even when the
  capture failed, so an older picture can be captioned.

The model is functional. The webcam, the recogniser, the captioning model
and the file are values passed in:

- a `Camera` is whether it opens plus the outcome of its k-th read;
- a `Recognition` is a transcript or one of the two recogniser errors;
- captioning is an opaque function from picture to string;
- the image file is an `Option<Frame>`.

What each script does to the outside world is an ordered trace of `Event`s:
open, read(k), release, file write, file read, speech, and a user-visible
warning.

Modules:

- `text.dfy`, module `Text`: Python's `str.lower()` on ASCII letters, and
  the substring test `w in s` as a left-to-right scan. The scan is proved
  equal to its reference meaning: some index where `w` occurs.
- `media.dfy`, module `Media`: the shared values: `Option`, frames and
  pictures, the camera, recognition outcomes, events.
- `streamlit_app.dfy`, module `StreamlitApp`: `recognize_speech`, the
  keyword classifier, `take_picture`, the session initialisation, and one
  rerun of `main` (`Run`). Streamlit runs the script again on every
  interaction, so a whole session is modelled as `Replay`, a fold of `Run`
  over a sequence of actions.
- `app.dfy`, module `App`: the phrase matcher, `take_picture`,
  `generate_caption_from_file` and `listen_for_command`.

Neither script keeps a caption history, listens in a loop, understands
"generate caption", "speak caption" or "stop listening", or falls back to a
placeholder caption when the model cannot load, so the model has none of
these.

Two details of the code are kept as written:

- When `isOpened()` is false, neither `take_picture` calls `release`. The
  traces show `Open` followed only by the error.
- In `streamlit_app.py` the device is released before the read result is
  checked. In `app.py` the failure message comes before the release.

## Model

| member | source | states |
|---|---|---|
| Text.Lower | app.py:49 | the result has the input's length, contains no upper-case letter, and is the input with each letter folded |
| Text.LowerFixesLower | streamlit_app.py:32 | lower-casing leaves a string unchanged exactly when it has no upper-case letter |
| Text.LowerIdempotent | streamlit_app.py:32 | lower-casing twice gives the same as lower-casing once |
| Text.ScanFromIff | streamlit_app.py:102 | the scan from index k succeeds exactly when the word occurs at some index at or after k |
| Text.ContainsIffOccurs | streamlit_app.py:102-104 | the `in` test holds exactly when the word occurs at some index of the text |
| Text.NoPlacementFrom | app.py:51 | if every placement of the word from k on has a differing character, the scan from k fails |
| StreamlitApp.RecognizeSpeech | streamlit_app.py:24-37 | the command is always lower case; on a transcript it has the transcript's length and each character is the transcript's character folded (an already lower-case transcript comes back unchanged); "" on either recognition error |
| StreamlitApp.ListenNotes | streamlit_app.py:29-36 | at most one event, and only error notices: none when recognition succeeded, "could not understand" for an unintelligible utterance, the request error for a failing service |
| StreamlitApp.Classify | streamlit_app.py:102-109 | capture iff "take" and "picture" both occur; upload redirect iff that fails and "upload" occurs; unknown otherwise |
| StreamlitApp.CaptureInEitherOrder | streamlit_app.py:102-103 | any text holding "take" and "picture", in either order and with anything around them, is a capture |
| StreamlitApp.KeywordInsideWord | streamlit_app.py:102 | "take" inside "mistake" counts, so "mistake in this picture" is a capture |
| StreamlitApp.UploadWithoutTake | streamlit_app.py:104-106 | "upload a picture" lacks "take", so it leads to the upload hint although "picture" is present |
| StreamlitApp.PhotoIsUnknown | streamlit_app.py:107-109 | "take a photo" has neither "picture" nor "upload", so it is an unknown command |
| StreamlitApp.FailedRecognitionIsUnknown | streamlit_app.py:37 | the "" returned after a recognition error classifies as unknown |
| StreamlitApp.OpenedCalls | streamlit_app.py:52-56 | an opened device sees open, the warm-up reads and the real read numbered in order, then exactly one release, and nothing else |
| StreamlitApp.TakePicture | streamlit_app.py:45-63 | not opened: no read and no release, only the error. Opened: exactly six reads, then one release, then the error only if the sixth read failed. The picture exists iff the sixth read returned a frame, and is that frame converted |
| StreamlitApp.Init | streamlit_app.py:69-72 | both keys are present afterwards; a key already present keeps its value; a missing caption becomes "" and a missing image becomes None |
| StreamlitApp.InitIdempotent | streamlit_app.py:69-72 | running the initialisation on an initialised session changes nothing |
| StreamlitApp.Adopt | streamlit_app.py:111-117 | with a picture, the session holds it with its caption and the caption is spoken last; without one, session and trace are unchanged |
| StreamlitApp.Run | streamlit_app.py:66-117 | after any rerun both keys are present, and the session is either the initialised one or a picture stored with its own caption |
| StreamlitApp.AdoptedShotEvents | streamlit_app.py:103-117 | a capture's trace never holds the upload or unknown-command warning, and is silent when no picture was taken |
| StreamlitApp.VoiceWarning | streamlit_app.py:104-109 | a non-capture command leaves the session as initialised; the trace is the recognition error, if any, then the one warning; no webcam and no speech |
| StreamlitApp.VoiceCapture | streamlit_app.py:102-103 | a capture command opens the webcam and shows neither warning |
| StreamlitApp.VoiceDispatch | streamlit_app.py:101-109 | the webcam is opened iff the command is a capture; the upload hint appears iff it is an upload redirect; "Unknown command." appears iff it is unknown |
| StreamlitApp.FailedRecognitionChangesNothing | streamlit_app.py:33-37 | after a recognition error the session is only initialised, and the trace is that error followed by "Unknown command." |
| StreamlitApp.CaptureUpdatesPair | streamlit_app.py:77-117 | a capture by button or voice that yields a picture stores that picture with its caption and speaks the caption last; one that yields none leaves the initialised session and speaks nothing |
| StreamlitApp.UploadUpdatesPair | streamlit_app.py:88-97 | an upload is stored with its caption and only that caption is spoken; no upload changes nothing |
| StreamlitApp.RunKeepsPairing | streamlit_app.py:80-84 | from a fresh or paired session, a rerun leaves caption and picture paired: "" with no picture, the picture's caption otherwise |
| StreamlitApp.ReplayKeepsPairing | streamlit_app.py:69-117 | any sequence of reruns from a fresh or paired session ends with caption and picture paired |
| App.Matches | app.py:51 | true exactly when one of "take picture", "click picture", "take a picture from my webcam" occurs in the command |
| App.TakePicture | app.py:26-40 | not opened: no read, no write, no release, file untouched. Opened: one read, then the write (on success) or the error, then one release. The file changes only to the frame of a successful read. Nothing is spoken and the file is not read |
| App.GenerateCaptionFromFile | app.py:61-71 | the file is read first; a stored frame's caption is spoken; "No image found!" exactly when the file is empty, and then nothing is spoken; no webcam use |
| App.ListenForCommand | app.py:43-58 | a recognition error leaves the file and gives one message; a non-matching command does nothing at all; the file only ever changes to a successfully read frame |
| App.TriggeredTrace | app.py:51-54 | on a matching command the trace is the capture's events followed by the captioning's, and the file is what the capture left |
| App.CaptionIffTriggered | app.py:49-54 | the file is read, and the webcam opened, exactly when the lower-cased transcript matches a phrase |
| App.CaptureBeforeCaption | app.py:52-53 | on a match the file is read exactly once, and every webcam call and file write comes before that read |
| App.RecognitionFailureOnlyReports | app.py:55-58 | a recognition error prints only its own message and keeps the file |
| App.FreshShotCaptioned | app.py:31-35 | on a match with a successful read, the frame is written, becomes the file, and its caption is spoken last |
| App.StaleImageCaptioned | app.py:52-69 | on a match whose capture fails, an earlier saved frame stays in the file and its caption is spoken; nothing is written |
| App.NoImageNoSpeech | app.py:62-71 | on a match whose capture fails with no file, "No image found!" ends the trace and nothing is spoken |
| App.WebcamPhraseStandsAlone | app.py:51 | "take a picture from my webcam" matches although it does not contain "take picture" |
| App.TriggerIgnoresCase | app.py:49 | a transcript triggers exactly when its lower-cased form does |

## Left out

- Text.Lower: folds only the ASCII letters A–Z. Python's `str.lower()` also folds other Unicode letters, so a transcript with such capitals can differ.
- BLIP model and processor loading (`from_pretrained`, `pickle.load`) and inference: opaque machine-learning code. Captioning is a function parameter, assumed deterministic.
- Speech recognition, the microphone, `recognizer.listen`, and `pyttsx3` output: foreign I/O. The recogniser's result is an input value and speech is a `Speak` event. Exceptions other than `UnknownValueError` and `RequestError` are not modelled.
- OpenCV pixel work: `cvtColor`, `imshow`, `waitKey`, `destroyAllWindows`. The BGR-to-RGB conversion is a function parameter in `StreamlitApp`. In `App` it is folded into the caption parameter.
- App.TakePicture: assumes `cv2.imwrite` always succeeds. The script ignores the boolean it returns (app.py:34), so a failed write would leave the old file (or none) for the captioning step; the model, and so `App.FreshShotCaptioned`, do not cover that case.
- The JPEG round trip of `captured_image.jpg`: the model reads back exactly the frame that was written. The real file is lossy.
- Streamlit rendering: the title, the select box, `st.image`, `st.info`, `st.success`. Decoding an upload (`Image.open(...).convert("RGB")`) is replaced by the decoded picture as input, so a decoding error is not modelled.
- Informational prints in `app.py` ("Listening for command...", "Command received", "Image saved", "Generated Caption") are not traced. Only warnings and errors are.
- The truthiness test `if image:` is read as "not None". A PIL image defines no false value.
- StreamlitApp.Replay: a helper that folds `Run` over reruns. It stands for Streamlit's rerun-on-interaction, not for a function in the source, and its own contract only states that both keys are present.
