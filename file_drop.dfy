/**
  The single-file slot of the brief-description upload in form.js: the
  drop zone's handlers (dragover, dragleave, drop) and the file input's
  change handler. Both handlers accept a PDF of at most 1 GiB; they differ
  in their messages and in what a rejection does to the slot.
 */
module FileDrop {
  import opened JsText
  import opened FieldValidation

  const OneGiB: nat := 1024 * 1024 * 1024
  const PdfType := "application/pdf"

  const MsgDropRejected := "Please provide a PDF file up to 1GB."
  const MsgNotPdf := "Please provide a PDF file."
  const MsgTooLarge := "The file must be less than 1GB."

  /** The test the drop handler applies to the first dropped file. */
  predicate DropAccepts(f: FileInfo) {
    f.mime == PdfType && f.size <= OneGiB
  }

  /** The error text the change handler writes for the chosen file: the
      type is checked before the size, and an accepted file clears it. */
  function ChangeError(f: FileInfo): (e: string)
    ensures e == "" <==> DropAccepts(f)
    ensures f.mime != PdfType ==> e == MsgNotPdf
    ensures f.mime == PdfType && f.size > OneGiB ==> e == MsgTooLarge
  {
    if f.mime != PdfType then MsgNotPdf
    else if f.size > OneGiB then MsgTooLarge
    else ""
  }

  /** The text of the file-name display for a file. */
  function FileLabel(name: string): (t: string)
    ensures |t| > |name| && t[|t| - |name|..] == name
  {
    "File: " + name
  }

  /** A file either handler accepts also passes the brief description's
      own 10 GiB rule, so `validateField` raises no custom error for the
      slot once it holds that file. */
  lemma AcceptedFilePassesValidator(f: FileInfo, field: Field)
    requires DropAccepts(f)
    requires field.name == BriefDescription && field.files == [f] && !IsBlank(field.value)
    ensures CustomMessage(field) == NoMessage
  {
    DescriptionSizeRule(field);
  }

  /** The drop zone, the file input it feeds and the two texts beside it. */
  class FileUpload {
    var files: seq<FileInfo>     // fileInput.files
    var errorText: string        // the group's .error-message text
    var fileNameText: string     // #file-name-display text
    var dropActive: bool         // the drop zone has class "active"

    constructor ()
      ensures files == [] && errorText == "" && fileNameText == "" && !dropActive
    {
      files := [];
      errorText := "";
      fileNameText := "";
      dropActive := false;
    }

    /** dragover: the drop zone lights up. */
    method DragOver()
      modifies this`dropActive
      ensures dropActive
    {
      dropActive := true;
    }

    /** dragleave: the drop zone goes dark. */
    method DragLeave()
      modifies this`dropActive
      ensures !dropActive
    {
      dropActive := false;
    }

    /** drop: only the first of the dropped files counts. An accepted file
        replaces the slot's contents and clears the error; a rejected one
        leaves the slot alone and sets the drop error; an empty drop only
        clears the highlight. */
    method Drop(dropped: seq<FileInfo>)
      modifies this`dropActive, this`files, this`errorText, this`fileNameText
      ensures !dropActive
      ensures dropped == [] ==>
        files == old(files) && errorText == old(errorText) && fileNameText == old(fileNameText)
      ensures dropped != [] && DropAccepts(dropped[0]) ==>
        files == [dropped[0]] && errorText == "" && fileNameText == FileLabel(dropped[0].name)
      ensures dropped != [] && !DropAccepts(dropped[0]) ==>
        files == old(files) && errorText == MsgDropRejected && fileNameText == old(fileNameText)
    {
      dropActive := false;
      if |dropped| > 0 {
        var file := dropped[0];
        if file.mime == PdfType && file.size <= OneGiB {
          files := [file];
          errorText := "";
          fileNameText := FileLabel(file.name);
        } else {
          errorText := MsgDropRejected;
        }
      }
    }

    /** The user picks files in the file dialog: they replace the input's
        files before `change` fires. */
    method Choose(chosen: seq<FileInfo>)
      modifies this`files
      ensures files == chosen
    {
      files := chosen;
    }

    /** change: the chosen file's name is shown first, whatever follows;
        then a non-PDF or a file over 1 GiB empties the input with its own
        message, and anything else clears the message. */
    method Change()
      requires |files| > 0
      modifies this`files, this`errorText, this`fileNameText
      ensures fileNameText == FileLabel(old(files)[0].name)
      ensures errorText == ChangeError(old(files)[0])
      ensures files == if DropAccepts(old(files)[0]) then old(files) else []
    {
      var file := files[0];
      fileNameText := FileLabel(file.name);
      if file.mime != PdfType {
        errorText := MsgNotPdf;
        files := [];
      } else if file.size > OneGiB {
        errorText := MsgTooLarge;
        files := [];
      } else {
        errorText := "";
      }
    }
  }

  /** Picking a file over 1 GiB and then running the change handler
      empties the slot with the size message. */
  method ChooseTooLarge(u: FileUpload, name: string)
    modifies u
    ensures u.files == [] && u.errorText == MsgTooLarge && u.fileNameText == FileLabel(name)
  {
    u.Choose([FileInfo(name, PdfType, OneGiB + 1)]);
    u.Change();
  }

  /** Whether a file is dropped or chosen, the slot keeps it under the same
      condition. */
  lemma DropAndChangeAgree(f: FileInfo)
    ensures DropAccepts(f) <==> ChangeError(f) == ""
  {
  }

  /** The boundary: exactly 1 GiB is accepted, one byte more is not. */
  lemma OneGiBBoundary(name: string)
    ensures DropAccepts(FileInfo(name, PdfType, OneGiB))
    ensures !DropAccepts(FileInfo(name, PdfType, OneGiB + 1))
    ensures ChangeError(FileInfo(name, PdfType, OneGiB + 1)) == MsgTooLarge
  {
  }
}
