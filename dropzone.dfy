/** The upload control (components/Dropzone.tsx): a pure accept / reject decision on a
    file's MIME type and size, and the component state around it (the drag-over
    highlight, the displayed error, and the calls it makes to its `onFileSelect`
    callback). */
module Intake {
  import opened Types

  /** The size ceiling, 10 MiB; a file of exactly this size is still accepted. */
  const MaxUploadBytes: nat := 10 * 1024 * 1024

  const ImageTypePrefix: string := "image/"
  const WrongTypeMessage: string := "Please upload an image file (PNG, JPG, WebP)."
  const TooLargeMessage: string := "File size too large. Max 10MB."

  /** Outcome of validating one candidate file. */
  datatype Verdict = Accept | WrongType | TooLarge

  /** The decision of `validateAndSelect`: the MIME type is checked first, then the size
      against a strict `>` ceiling. */
  function Validate(mimeType: string, size: nat): (v: Verdict)
    ensures v == Accept <==> StartsWith(mimeType, ImageTypePrefix) && size <= MaxUploadBytes
    ensures v == WrongType <==> !StartsWith(mimeType, ImageTypePrefix)
    ensures v == TooLarge <==> StartsWith(mimeType, ImageTypePrefix) && MaxUploadBytes < size
  {
    if !StartsWith(mimeType, ImageTypePrefix) then WrongType
    else if size > MaxUploadBytes then TooLarge
    else Accept
  }

  /** The error text the component shows after a verdict (`null` on acceptance). */
  function ErrorFor(v: Verdict): (e: Option<string>)
    ensures e.None? <==> v == Accept
    ensures e.Some? ==> e.value != ""
    ensures v == WrongType ==> e == Some(WrongTypeMessage)
    ensures v == TooLarge ==> e == Some(TooLargeMessage)
  {
    match v
    case Accept => None
    case WrongType => Some(WrongTypeMessage)
    case TooLarge => Some(TooLargeMessage)
  }

  /** The calls to `onFileSelect` that validating `file` makes: one on acceptance, none
      otherwise. */
  function CallbacksFor(file: File): (calls: seq<File>)
    ensures |calls| <= 1
    ensures calls == [file] <==> Validate(file.mimeType, file.size) == Accept
    ensures calls == [] <==> Validate(file.mimeType, file.size) != Accept
  {
    if Validate(file.mimeType, file.size) == Accept then [file] else []
  }

  /** A type other than `image/...` is refused whatever the size, so a large non-image
      gets the type error and never the size error. */
  lemma TypeCheckComesFirst(mimeType: string, size: nat)
    requires !StartsWith(mimeType, ImageTypePrefix)
    ensures Validate(mimeType, size) == WrongType
    ensures ErrorFor(Validate(mimeType, size)) == Some(WrongTypeMessage)
  {
  }

  /** The ceiling is inclusive: exactly 10 MiB passes, one byte more is refused. */
  lemma SizeBoundary(mimeType: string)
    requires StartsWith(mimeType, ImageTypePrefix)
    ensures Validate(mimeType, 10485760) == Accept
    ensures Validate(mimeType, 10485761) == TooLarge
  {
  }

  /** Acceptance is downward closed in the size: shrinking an accepted file keeps it
      accepted, and growing a refused image keeps it refused. */
  lemma AcceptanceMonotone(mimeType: string, small: nat, large: nat)
    requires small <= large
    ensures Validate(mimeType, large) == Accept ==> Validate(mimeType, small) == Accept
    ensures Validate(mimeType, small) == TooLarge ==> Validate(mimeType, large) == TooLarge
  {
  }

  /** The Dropzone component. `disabled` is a prop; `isDragOver` and `error` are its
      state; `selected` records, oldest first, every file passed to `onFileSelect`. */
  class Dropzone {
    const disabled: bool
    var isDragOver: bool
    var error: Option<string>
    var selected: seq<File>

    constructor (disabled: bool)
      ensures this.disabled == disabled
      ensures !isDragOver && error == None && selected == []
    {
      this.disabled := disabled;
      isDragOver := false;
      error := None;
      selected := [];
    }

    /** `handleDragOver`: highlight, unless disabled. */
    method HandleDragOver()
      modifies this`isDragOver
      ensures isDragOver == (!disabled || old(isDragOver))
    {
      if !disabled {
        isDragOver := true;
      }
    }

    /** `handleDragLeave`: always drop the highlight. */
    method HandleDragLeave()
      modifies this`isDragOver
      ensures !isDragOver
    {
      isDragOver := false;
    }

    /** `validateAndSelect`: set or clear the error and, on acceptance only, call
        `onFileSelect` once with the file. */
    method ValidateAndSelect(file: File)
      modifies this`error, this`selected
      ensures error == ErrorFor(Validate(file.mimeType, file.size))
      ensures selected == old(selected) + CallbacksFor(file)
    {
      if !StartsWith(file.mimeType, ImageTypePrefix) {
        error := Some(WrongTypeMessage);
        return;
      }
      if file.size > MaxUploadBytes {
        error := Some(TooLargeMessage);
        return;
      }
      error := None;
      selected := selected + [file];
    }

    /** `handleDrop`: clear the highlight; unless disabled, validate the first dropped
        file, if any. The remaining files are ignored. */
    method HandleDrop(files: seq<File>)
      modifies this`isDragOver, this`error, this`selected
      ensures !isDragOver
      ensures disabled || files == [] ==> error == old(error) && selected == old(selected)
      ensures !disabled && files != [] ==>
        error == ErrorFor(Validate(files[0].mimeType, files[0].size)) &&
        selected == old(selected) + CallbacksFor(files[0])
    {
      isDragOver := false;
      if disabled {
        return;
      }
      if |files| > 0 {
        ValidateAndSelect(files[0]);
      }
    }

    /** `handleChange` (the hidden file input): validate the first chosen file, if any.
        It does not consult `disabled`; the input element itself is disabled instead. */
    method HandleChange(files: seq<File>)
      modifies this`error, this`selected
      ensures files == [] ==> error == old(error) && selected == old(selected)
      ensures files != [] ==>
        error == ErrorFor(Validate(files[0].mimeType, files[0].size)) &&
        selected == old(selected) + CallbacksFor(files[0])
    {
      if |files| > 0 {
        ValidateAndSelect(files[0]);
      }
    }
  }
}
