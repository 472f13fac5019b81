/**
  The page's handlers with the browser left out: the file reader becomes the
  text it would deliver, a toast becomes a `Notice`, and `downloadFile`
  becomes the `Download` the handler asks for. The state is the three
  `useState` variables.
*/
module IndexPage {
  import opened Wrappers
  import opened JsText
  import opened Extraction
  import opened TranslationParser
  import opened Injection
  import opened OutputNaming
  import opened TermsExport

  /** `fileName`, `fileContent` and `extractedData`. */
  datatype AppState = AppState(fileName: string, fileContent: string, extractedData: seq<Item>)

  /** The state before anything is uploaded. */
  const Initial: AppState := AppState("", "", [])

  /** The toast each handler shows. */
  datatype Notice =
    | EmptyFile | NothingToTranslate | Extracted(count: nat)
    | NothingToExport | TermsExported(count: nat)
    | EmptyTranslationFile | NoValidTranslations | ProcessingFailed | Applied(count: nat)
    | NothingToDownload | FileDownloaded

  /** A `downloadFile(content, fileName)` request. */
  datatype Download = Download(fileName: string, content: string)

  /** What a handler leaves behind: the new state, its toast and its download. */
  datatype Outcome = Outcome(state: AppState, notice: Notice, download: Option<Download>)

  const ExtractedTermsSuffix: string := "_ExtractedTerms"
  const TranslatedSuffix: string := "_Translated"

  /** Every recorded data line of the extracted items is a line of the current content. */
  predicate Wf(st: AppState) {
    forall j :: 0 <= j < |st.extractedData| && st.extractedData[j].dataLineIndex.Some? ==>
      st.extractedData[j].dataLineIndex.value < |Lines(st.fileContent)|
  }

  /** `handleFileUpload` once the reader has delivered `text`: the name is
      always taken; a blank text changes nothing else; otherwise the text
      becomes the content and its items the extracted data. */
  function HandleFileUpload(st: AppState, name: string, text: string): (o: Outcome)
    ensures o.download.None? && o.state.fileName == name
    ensures IsBlank(text) ==> o.state == st.(fileName := name) && o.notice == EmptyFile
    ensures !IsBlank(text) ==> o.state == AppState(name, text, ExtractTermsFromContent(text))
    ensures !IsBlank(text) ==> (o.notice == NothingToTranslate <==> |o.state.extractedData| == 0)
    ensures o.notice.Extracted? ==> o.notice.count == |o.state.extractedData| > 0
  {
    if Trim(text) == "" then Outcome(st.(fileName := name), EmptyFile, None)
    else
      var extracted := ExtractTermsFromContent(text);
      var notice := if |extracted| == 0 then NothingToTranslate else Extracted(|extracted|);
      Outcome(AppState(name, text, extracted), notice, None)
  }

  /** The upload reports that nothing can be translated exactly when the file
      is not blank and none of its lines matches TERM_REGEX; a blank file is
      reported as empty instead. */
  lemma UploadFindsNothing(st: AppState, name: string, text: string)
    ensures HandleFileUpload(st, name, text).notice == NothingToTranslate <==>
            !IsBlank(text) && forall t :: 0 <= t < |Lines(text)| ==> !IsTermLine(Lines(text)[t])
  {
    if !IsBlank(text) {
      ExtractedNothing(text);
    }
  }

  /** `handleExportTerms`: with no items nothing is downloaded; otherwise the
      terms file is offered under the input name with `_ExtractedTerms`. The
      state never changes. */
  function HandleExportTerms(st: AppState): (o: Outcome)
    ensures o.state == st
    ensures o.download.Some? <==> |st.extractedData| > 0
    ensures o.download.Some? ==>
              o.download.value == Download(GenerateOutputFileName(st.fileName, ExtractedTermsSuffix), PairsExport(st.extractedData)) &&
              o.notice == TermsExported(|st.extractedData|)
    ensures o.download.None? ==> o.notice == NothingToExport
  {
    if |st.extractedData| == 0 then Outcome(st, NothingToExport, None)
    else
      var content := PairsExport(st.extractedData);
      Outcome(st, TermsExported(|st.extractedData|), Some(Download(GenerateOutputFileName(st.fileName, ExtractedTermsSuffix), content)))
  }

  /** `handleImportTranslations` once the reader has delivered `content`: a
      blank file, a file without entries, and a failure while applying leave
      the state as it was; otherwise only the content changes. */
  function HandleImportTranslations(st: AppState, content: string): (o: Outcome)
    ensures o.download.None?
    ensures o.state.fileName == st.fileName && o.state.extractedData == st.extractedData
    ensures o.state != st ==> o.notice.Applied?
    ensures IsBlank(content) ==> o.notice == EmptyTranslationFile
    ensures !IsBlank(content) && |ParseTranslationFile(content)| == 0 ==> o.notice == NoValidTranslations
    ensures o.notice.Applied? <==>
              !IsBlank(content) && |ParseTranslationFile(content)| > 0 &&
              InRange(st.extractedData, ParseTranslationFile(content), |Lines(st.fileContent)|)
    ensures o.notice == ProcessingFailed <==>
              !IsBlank(content) && |ParseTranslationFile(content)| > 0 &&
              !InRange(st.extractedData, ParseTranslationFile(content), |Lines(st.fileContent)|)
    ensures o.notice.Applied? ==>
              o.notice.count == CountApplicable(st.extractedData, ParseTranslationFile(content)) &&
              o.state.fileContent == ApplyTranslationsToContent(st.fileContent, st.extractedData, ParseTranslationFile(content)).value.updatedContent
  {
    if Trim(content) == "" then Outcome(st, EmptyTranslationFile, None)
    else
      var m := ParseTranslationFile(content);
      if |m| == 0 then Outcome(st, NoValidTranslations, None)
      else
        match ApplyTranslationsToContent(st.fileContent, st.extractedData, m)
        case Err(_) => Outcome(st, ProcessingFailed, None)
        case Ok(r) => Outcome(st.(fileContent := r.updatedContent), Applied(r.appliedCount), None)
  }

  /** `handleDownloadFinal`: an empty content offers nothing; otherwise the
      current content is offered under the input name with `_Translated`. */
  function HandleDownloadFinal(st: AppState): (o: Outcome)
    ensures o.state == st
    ensures o.download.Some? <==> st.fileContent != ""
    ensures o.download.Some? ==>
              o.download.value == Download(GenerateOutputFileName(st.fileName, TranslatedSuffix), st.fileContent) &&
              o.notice == FileDownloaded
    ensures o.download.None? ==> o.notice == NothingToDownload
  {
    if st.fileContent == "" then Outcome(st, NothingToDownload, None)
    else Outcome(st, FileDownloaded, Some(Download(GenerateOutputFileName(st.fileName, TranslatedSuffix), st.fileContent)))
  }

  /** The initial state is well formed. */
  lemma InitialWf()
    ensures Wf(Initial)
  {
  }

  /** An upload keeps the state well formed. */
  lemma UploadKeepsWf(st: AppState, name: string, text: string)
    requires Wf(st)
    ensures Wf(HandleFileUpload(st, name, text).state)
  {
    if !IsBlank(text) {
      var items := ExtractTermsFromContent(text);
      ExtractedDataLinesInRange(text);
      assert forall j :: 0 <= j < |items| ==> items[j] in items;
    }
  }

  /** In a well-formed state an import never fails while applying. */
  lemma ImportNeverFails(st: AppState, content: string)
    requires Wf(st)
    ensures HandleImportTranslations(st, content).notice != ProcessingFailed
  {
    if !IsBlank(content) {
      var m := ParseTranslationFile(content);
      assert InRange(st.extractedData, m, |Lines(st.fileContent)|);
    }
  }

  /** An import keeps the state well formed: the updated content has as many
      lines as before, since no translation holds a newline. */
  lemma ImportKeepsWf(st: AppState, content: string)
    requires Wf(st)
    ensures Wf(HandleImportTranslations(st, content).state)
  {
    var o := HandleImportTranslations(st, content);
    if o.notice.Applied? {
      var m := ParseTranslationFile(content);
      UpdatedLines(st.fileContent, st.extractedData, m);
    }
  }

  /** After an applied import, each line of the content is the line before the
      import or its rewrite by the last item that writes it. */
  lemma ImportRewritesLines(st: AppState, content: string)
    requires HandleImportTranslations(st, content).notice.Applied?
    ensures var m := ParseTranslationFile(content);
            var after := Lines(HandleImportTranslations(st, content).state.fileContent);
            |after| == |Lines(st.fileContent)| &&
            forall i :: 0 <= i < |after| ==> after[i] == FinalLine(Lines(st.fileContent), st.extractedData, m, i)
  {
    var m := ParseTranslationFile(content);
    UpdatedLines(st.fileContent, st.extractedData, m);
  }

  /** A user action on the page, with the text a file reader would deliver.
      Each action is one step that runs to completion on the current state. */
  datatype Action = Upload(name: string, text: string) | Import(content: string) | ExportTerms | DownloadFinal

  /** The state after one action. */
  function Perform(st: AppState, a: Action): AppState {
    match a
    case Upload(name, text) => HandleFileUpload(st, name, text).state
    case Import(content) => HandleImportTranslations(st, content).state
    case ExportTerms => HandleExportTerms(st).state
    case DownloadFinal => HandleDownloadFinal(st).state
  }

  /** The state after a list of actions. */
  function Run(st: AppState, actions: seq<Action>): AppState
    decreases |actions|
  {
    if |actions| == 0 then st else Run(Perform(st, actions[0]), actions[1..])
  }

  /** Every state reached by a sequence of completed handler steps is well formed. */
  lemma {:induction false} RunKeepsWf(st: AppState, actions: seq<Action>)
    requires Wf(st)
    ensures Wf(Run(st, actions))
    decreases |actions|
  {
    if |actions| > 0 {
      var next := Perform(st, actions[0]);
      match actions[0] {
        case Upload(name, text) => UploadKeepsWf(st, name, text);
        case Import(content) => ImportKeepsWf(st, content);
        case ExportTerms =>
        case DownloadFinal =>
      }
      assert Wf(next);
      RunKeepsWf(next, actions[1..]);
      assert Run(st, actions) == Run(next, actions[1..]);
    }
  }

  /** In a session of completed handler steps, no import fails while applying
      translations. */
  lemma NoImportFailsInSession(actions: seq<Action>, content: string)
    ensures HandleImportTranslations(Run(Initial, actions), content).notice != ProcessingFailed
  {
    InitialWf();
    RunKeepsWf(Initial, actions);
    ImportNeverFails(Run(Initial, actions), content);
  }
}
