/** The Excel upload button and its modal: which files it accepts, and the
    state the modal moves through while a file is selected, uploaded and
    the modal closed. The upload callback, the browser's file objects and
    the closing timer are parameters: the callback's outcome is passed in,
    and the timer firing is an operation of its own. */
module UploadModal {
  import opened Wrappers
  import opened Text

  /** The part of a browser `File` the validator reads. */
  datatype File = File(name: string, mime: string, size: nat)

  /** Why a file or an upload was refused. The text shown for a refused
      file type is `WrongTypeMessage`. */
  datatype UploadError =
    | WrongType
    | TooLarge(maxSizeMB: nat)
    | Failed(message: string)

  /** The six state variables of the component. */
  datatype Modal = Modal(
    show: bool,
    selected: Option<File>,
    dragOver: bool,
    error: Option<UploadError>,
    success: bool,
    uploading: bool)

  /** What the upload callback did. `Threw(None)` is a thrown value that is
      not an `Error`. */
  datatype UploadOutcome = Uploaded | Threw(message: Option<string>)

  const WrongTypeMessage := "Solo se permiten archivos de Excel (.xlsx, .xls)"
  const GenericFailure := "Error al procesar el archivo"

  /** The default size limit, in megabytes. */
  const DefaultMaxSizeMB: nat := 50

  const BytesPerMB: nat := 1024 * 1024

  const XlsxMime := "application/vnd.openxmlformats-officedocument.spreadsheetml.sheet"
  const XlsMime := "application/vnd.ms-excel"

  /** The closed modal with nothing selected: the initial state. */
  const Initial := Modal(false, None, false, None, false, false)

  /** `lastIndexOf(".")`, with `None` for `-1`. */
  function LastDot(s: string): (r: Option<nat>)
    ensures r.Some? ==> r.value < |s| && s[r.value] == '.'
    decreases |s|
  {
    if s == [] then None
    else if s[|s| - 1] == '.' then Some(|s| - 1)
    else LastDot(s[..|s| - 1])
  }

  /** `name.toLowerCase().substring(name.lastIndexOf("."))`; `substring`
      treats `-1` as `0`, so a name without a dot is its own extension. */
  function Extension(name: string): string
  {
    var from := match LastDot(name) case None => 0 case Some(i) => i;
    Lower(name)[from..]
  }

  /** The type check: an Excel MIME type or an Excel extension suffices. */
  predicate TypeAllowed(f: File)
  {
    f.mime in [XlsxMime, XlsMime] || Extension(f.name) in [".xlsx", ".xls"]
  }

  /** The size check: `size / 1024 / 1024 > maxSizeMB`. */
  predicate TooBig(f: File, maxSizeMB: nat)
  {
    f.size > maxSizeMB * BytesPerMB
  }

  /** `handleFileSelect`: a file of the wrong type, then one too big, only
      sets the error; an acceptable one is selected, clearing the error and
      any earlier success. */
  function SelectFile(st: Modal, f: File, maxSizeMB: nat): Modal
  {
    if !TypeAllowed(f) then st.(error := Some(WrongType))
    else if TooBig(f, maxSizeMB) then st.(error := Some(TooLarge(maxSizeMB)))
    else st.(selected := Some(f), error := None, success := false)
  }

  /** `handleFileInputChange`: the first chosen file, if any. */
  function InputChange(st: Modal, files: seq<File>, maxSizeMB: nat): Modal
  {
    if files == [] then st else SelectFile(st, files[0], maxSizeMB)
  }

  /** `handleDrop`: the drag highlight goes off, then the first dropped
      file, if any, is handled. */
  function Drop(st: Modal, files: seq<File>, maxSizeMB: nat): Modal
  {
    InputChange(st.(dragOver := false), files, maxSizeMB)
  }

  /** `handleDragOver` and `handleDragLeave`. */
  function DragOver(st: Modal): Modal { st.(dragOver := true) }
  function DragLeave(st: Modal): Modal { st.(dragOver := false) }

  /** `handleUpload` up to the callback's outcome: nothing without a
      selection; otherwise the success flag is set on success, or the error
      is set and uploading stops on failure. The error is held as a string
      whose empty value means "no error", so an empty thrown message leaves
      no error shown. */
  function Upload(st: Modal, outcome: UploadOutcome): Modal
  {
    if st.selected.None? then st
    else
      var started := st.(uploading := true, error := None, success := false);
      match outcome
      case Uploaded => started.(success := true)
      case Threw(m) =>
        var text := match m case Some(s) => s case None => GenericFailure;
        started.(error := if text == "" then None else Some(Failed(text)), uploading := false)
  }

  /** The timer set after a successful upload: the modal closes and
      everything but the drag highlight is reset. */
  function TimerFired(st: Modal): Modal
  {
    st.(show := false, selected := None, success := false, uploading := false, error := None)
  }

  /** `closeModal`. */
  function Close(st: Modal): Modal
  {
    Initial
  }

  /** `handleOpenModal`. */
  function Open(st: Modal): Modal
  {
    st.(show := true)
  }

  /** A file passes both checks. */
  predicate Acceptable(f: File, maxSizeMB: nat)
  {
    TypeAllowed(f) && !TooBig(f, maxSizeMB)
  }

  /** Handling a file clears the error exactly when the file is acceptable;
      an acceptable file becomes the selection, and a refused one changes
      nothing but the error, whose kind names the check that failed first. */
  lemma SelectFileSpec(st: Modal, f: File, maxSizeMB: nat)
    ensures SelectFile(st, f, maxSizeMB).error.None? <==> Acceptable(f, maxSizeMB)
    ensures Acceptable(f, maxSizeMB) ==> SelectFile(st, f, maxSizeMB).selected == Some(f)
    ensures !Acceptable(f, maxSizeMB) ==>
      SelectFile(st, f, maxSizeMB).(error := st.error) == st
    ensures !TypeAllowed(f) ==> SelectFile(st, f, maxSizeMB).error == Some(WrongType)
    ensures TypeAllowed(f) && TooBig(f, maxSizeMB) ==>
      SelectFile(st, f, maxSizeMB).error == Some(TooLarge(maxSizeMB))
    ensures Acceptable(f, maxSizeMB) ==> !SelectFile(st, f, maxSizeMB).success
  {
  }

  /** The file input handles its first file exactly as `handleFileSelect`
      does, and an empty choice changes nothing. */
  lemma InputChangeSpec(st: Modal, files: seq<File>, maxSizeMB: nat)
    ensures files == [] ==> InputChange(st, files, maxSizeMB) == st
    ensures files != [] ==>
      && (InputChange(st, files, maxSizeMB).error.None? <==> Acceptable(files[0], maxSizeMB))
      && (Acceptable(files[0], maxSizeMB) ==> InputChange(st, files, maxSizeMB).selected == Some(files[0]))
      && (!Acceptable(files[0], maxSizeMB) ==> InputChange(st, files, maxSizeMB).selected == st.selected)
  {
    if files != [] {
      SelectFileSpec(st, files[0], maxSizeMB);
    }
  }

  /** A drop always turns the drag highlight off; an empty drop changes
      nothing else, and otherwise the first dropped file is handled as a
      chosen one. Dragging over turns the highlight on and leaving turns it
      off, touching nothing else. */
  lemma DropSpec(st: Modal, files: seq<File>, maxSizeMB: nat)
    ensures !Drop(st, files, maxSizeMB).dragOver
    ensures files == [] ==> Drop(st, files, maxSizeMB) == st.(dragOver := false)
    ensures files != [] ==>
      && (Drop(st, files, maxSizeMB).error.None? <==> Acceptable(files[0], maxSizeMB))
      && (Acceptable(files[0], maxSizeMB) ==> Drop(st, files, maxSizeMB).selected == Some(files[0]))
    ensures Drop(st, files, maxSizeMB).show == st.show
    ensures DragOver(st).dragOver && DragOver(st).(dragOver := st.dragOver) == st
    ensures !DragLeave(st).dragOver && DragLeave(st).(dragOver := st.dragOver) == st
    ensures DragLeave(DragOver(st)) == st.(dragOver := false)
  {
    InputChangeSpec(st.(dragOver := false), files, maxSizeMB);
    if files != [] {
      SelectFileKeepsModal(st.(dragOver := false), files[0], maxSizeMB);
    }
  }

  /** With the default limit a file is too big exactly when it has more
      than 50 MiB, 52428800 bytes. */
  lemma DefaultLimit(f: File)
    ensures TooBig(f, DefaultMaxSizeMB) <==> f.size > 52428800
  {
  }

  /** Handling a file never opens, closes or uploads anything. */
  lemma SelectFileKeepsModal(st: Modal, f: File, maxSizeMB: nat)
    ensures SelectFile(st, f, maxSizeMB).show == st.show
    ensures SelectFile(st, f, maxSizeMB).uploading == st.uploading
    ensures SelectFile(st, f, maxSizeMB).dragOver == st.dragOver
  {
  }

  /** The `lastIndexOf(".")` found is the last dot. */
  lemma {:induction false} LastDotIsLast(s: string)
    ensures LastDot(s).Some? ==> forall k :: LastDot(s).value < k < |s| ==> s[k] != '.'
    ensures LastDot(s).None? <==> forall k :: 0 <= k < |s| ==> s[k] != '.'
    decreases |s|
  {
    if s != [] && s[|s| - 1] != '.' {
      LastDotIsLast(s[..|s| - 1]);
      assert forall k :: 0 <= k < |s| - 1 ==> s[..|s| - 1][k] == s[k];
    }
  }

  /** The extension of a name with a dot is the lower-cased text from its
      last dot on; a name without a dot is its own extension, lower-cased. */
  lemma ExtensionSpec(base: string, ext: string)
    requires forall k :: 0 <= k < |ext| ==> ext[k] != '.'
    ensures Extension(base + "." + ext) == "." + Lower(ext)
    ensures (forall k :: 0 <= k < |base| ==> base[k] != '.') ==> Extension(base) == Lower(base)
  {
    var name := base + "." + ext;
    LastDotIsLast(name);
    LastDotIsLast(base);
    assert name[|base|] == '.';
    assert forall k :: |base| < k < |name| ==> name[k] == ext[k - |base| - 1];
    assert LastDot(name) == Some(|base|);
    assert Lower(name)[|base|..] == "." + Lower(ext);
  }

  /** A name ending in ".XLSX" in any letter case passes the type check
      whatever its MIME type. */
  lemma ExcelExtensionSuffices(base: string, ext: string, mime: string, size: nat)
    requires Lower(ext) == "xlsx" || Lower(ext) == "xls"
    ensures TypeAllowed(File(base + "." + ext, mime, size))
  {
    assert forall k :: 0 <= k < |ext| ==> LowerChar(ext[k]) == Lower(ext)[k] != '.';
    ExtensionSpec(base, ext);
    assert "." + Lower(ext) == ".xlsx" || "." + Lower(ext) == ".xls";
  }

  /** Uploading without a selection does nothing. */
  lemma UploadWithoutFileIsNoOp(st: Modal, outcome: UploadOutcome)
    requires st.selected.None?
    ensures Upload(st, outcome) == st
  {
  }

  /** A successful upload followed by the timer returns to the initial
      state, except that the drag highlight is left as it was. */
  lemma SuccessThenTimerCloses(st: Modal)
    requires st.selected.Some?
    ensures Upload(st, Uploaded).success && Upload(st, Uploaded).uploading
    ensures TimerFired(Upload(st, Uploaded)) == Initial.(dragOver := st.dragOver)
  {
  }

  /** A failed upload keeps the modal and the selection, stops uploading,
      and reports the thrown message or, when there is none, the generic
      one; an empty thrown message reports nothing. */
  lemma FailureKeepsSelection(st: Modal, m: Option<string>)
    requires st.selected.Some?
    ensures var r := Upload(st, Threw(m));
      && r.show == st.show && r.selected == st.selected
      && !r.uploading && !r.success
      && (m.None? ==> r.error == Some(Failed(GenericFailure)))
      && (m.Some? && m.value != "" ==> r.error == Some(Failed(m.value)))
      && (m == Some("") ==> r.error.None?)
  {
  }

  /** Closing resets every field, whatever the state; opening and then
      closing leaves the initial state. */
  lemma CloseResets(st: Modal)
    ensures Close(st) == Initial
    ensures Close(Open(st)) == Initial
    ensures Open(Close(st)) == Initial.(show := true)
  {
  }
}
