/** The state machine of src/hooks/useSvgProcessor.ts: the application state
    `{ currentFile, svgCode, isProcessing }` and the three operations that
    overwrite it. React's `setState` becomes assignment to the fields. */
module SvgProcessor {
  import opened Types
  import opened SvgMetadata
  import opened FileUtils

  /** The name given to code that was pasted rather than loaded. */
  const PastedName: string := "pasted.svg"

  class Processor {
    var currentFile: Option<FileInfo>
    var svgCode: string
    var isProcessing: bool

    /** The host's `DOMParser`: what it makes of a text. */
    const parse: string -> Document

    /** `validateSvg(code).valid` */
    predicate Validates(code: string) {
      ValidateSvg(parse(code)).valid
    }

    /** The state holds either no code or code that passed validation, and
        code is only ever held together with the file it came from. */
    predicate Valid()
      reads this
    {
      && (svgCode == "" || Validates(svgCode))
      && (currentFile.None? ==> svgCode == "")
    }

    /** `initialState` */
    predicate Initial()
      reads this
    {
      currentFile == None && svgCode == "" && !isProcessing
    }

    constructor(parse: string -> Document)
      ensures this.parse == parse
      ensures Initial() && Valid()
    {
      this.parse := parse;
      currentFile := None;
      svgCode := "";
      isProcessing := false;
    }

    /** The first step of `processFile`, before the file is read: the state
        is marked as processing and nothing else changes. */
    method BeginProcessFile()
      requires Valid()
      modifies this
      ensures isProcessing
      ensures currentFile == old(currentFile) && svgCode == old(svgCode)
      ensures Valid()
    {
      isProcessing := true;
    }

    /** The rest of `processFile`, once reading has ended: `read` is the text
        `readFileAsText` produced, or `None` when it rejected. A failed read
        and invalid content both leave the file and the code as they were;
        valid content replaces both. Every path ends the processing. */
    method FinishProcessFile(file: File, read: Option<string>) returns (ok: bool)
      requires Valid()
      modifies this
      ensures ok <==> read.Some? && Validates(read.value)
      ensures ok ==> currentFile == Some(FileInfo(file.name)) && svgCode == read.value
      ensures !ok ==> currentFile == old(currentFile) && svgCode == old(svgCode)
      ensures !isProcessing
      ensures Valid()
    {
      if read.None? {
        isProcessing := false;
        return false;
      }
      var code := read.value;
      var validation := ValidateSvg(parse(code));
      if !validation.valid {
        isProcessing := false;
        return false;
      }
      currentFile := Some(FileInfo(file.name));
      svgCode := code;
      isProcessing := false;
      return true;
    }

    /** `processPastedCode`: invalid code is refused and changes nothing;
        valid code becomes the current code under the name `pasted.svg`. */
    method ProcessPastedCode(code: string) returns (ok: bool)
      requires Valid()
      modifies this
      ensures ok <==> Validates(code)
      ensures !ok ==> currentFile == old(currentFile) && svgCode == old(svgCode) && isProcessing == old(isProcessing)
      ensures ok ==> currentFile == Some(FileInfo(PastedName)) && svgCode == code && !isProcessing
      ensures Valid()
    {
      var validation := ValidateSvg(parse(code));
      if !validation.valid {
        return false;
      }
      currentFile := Some(FileInfo(PastedName));
      svgCode := code;
      isProcessing := false;
      return true;
    }

    /** `clear`: back to the initial state. */
    method Clear()
      modifies this
      ensures Initial() && Valid()
    {
      currentFile := None;
      svgCode := "";
      isProcessing := false;
    }
  }
}
