/**
 The page's session store and one top-to-bottom run of the page script.
 Streamlit keeps `st.session_state` between runs; the page writes two keys,
 `df` (the table) and `original_filename`, and shows the editor and the
 download button only while `df` is present. The table itself is opaque here:
 `Table` stands for a pandas DataFrame, and the CSV reader is a parameter.
 */
module Session {
  import opened Wrappers
  import Sanitizer
  import FileName

  /** The origin name a successful conversion stores. */
  const ConvertedName: string := "image_extracted.csv"

  /** The content type of the download. */
  const CsvMime: string := "text/csv"

  /** What the webhook call gives back: a reply with its HTTP status and
      text, or no reply at all (refused connection, the 60-second timeout). */
  datatype Reply = Reply(status: int, body: string) | NoReply

  /** `raise_for_status` raises for every 4xx and 5xx status. */
  predicate IsErrorStatus(status: int)
  {
    400 <= status < 600
  }

  /** Whether a conversion gets through: a reply arrived, its status is not
      an error, and the CSV reader accepts the sanitized text. */
  predicate Converts<Table>(reply: Reply, readCsv: string -> Option<Table>)
  {
    reply.Reply? && !IsErrorStatus(reply.status) && readCsv(Sanitizer.Sanitize(reply.body)).Some?
  }

  /** The exceptions that end a conversion before anything is stored. */
  datatype ConvertError =
    | Unreachable            // `requests.post` raised
    | HttpError(status: int) // `raise_for_status` raised
    | UnparsableCsv          // `pd.read_csv` raised

  /** How a conversion ended. */
  datatype Outcome = Done | Raised(error: ConvertError)

  /** What one run of the page shows below the upload widget. */
  datatype View<Table> =
    | Crashed(error: ConvertError)                // the exception ends the run
    | Prompt                                      // "Upload an image to get started."
    | Editor(table: Table, downloadName: string)  // the grid and the download button

  /** What the download button offers: the table (serialised with
      `to_csv(index=False)`, not modelled), its file name and content type. */
  datatype Download<Table> = Download(table: Table, fileName: string, mime: string)

  class Session<Table> {
    /** `st.session_state["df"]`; absent until the first successful conversion. */
    var df: Option<Table>
    /** `st.session_state["original_filename"]`. */
    var originalFilename: Option<string>

    /** What every reachable store satisfies: the only write of `df` outside
        a save comes with the write of the fixed origin name, so a stored
        table always has `image_extracted.csv` beside it. */
    predicate Valid()
      reads this
    {
      df.Some? ==> originalFilename == Some(ConvertedName)
    }

    /** A fresh browser session holds neither key. */
    constructor ()
      ensures df == None && originalFilename == None
      ensures Valid()
    {
      df := None;
      originalFilename := None;
    }

    /** The guard of the editor and download branch: `"df" in st.session_state`. */
    predicate HasTable()
      reads this
    {
      df.Some?
    }

    /** "Convert to sheet": post the file, fail on a missing reply or an
        error status, sanitize the text, parse it, and only then store the
        table and the fixed origin name. On every failure the store is left
        exactly as it was. */
    method Convert(reply: Reply, readCsv: string -> Option<Table>) returns (outcome: Outcome)
      modifies this
      ensures outcome.Done? <==> Converts(reply, readCsv)
      ensures reply.NoReply? ==> outcome == Raised(Unreachable)
      ensures reply.Reply? && IsErrorStatus(reply.status) ==> outcome == Raised(HttpError(reply.status))
      ensures reply.Reply? && !IsErrorStatus(reply.status) ==>
        outcome == (if readCsv(Sanitizer.Sanitize(reply.body)).Some? then Done else Raised(UnparsableCsv))
      ensures outcome.Done? ==>
        && df == readCsv(Sanitizer.Sanitize(reply.body))
        && originalFilename == Some(ConvertedName)
      ensures outcome.Raised? ==> df == old(df) && originalFilename == old(originalFilename)
      ensures old(Valid()) ==> Valid()
    {
      if reply.NoReply? {
        return Raised(Unreachable);
      }
      if IsErrorStatus(reply.status) {
        return Raised(HttpError(reply.status));
      }
      var csvText := Sanitizer.Sanitize(reply.body);
      var parsed := readCsv(csvText);
      if parsed.None? {
        return Raised(UnparsableCsv);
      }
      df := parsed;
      originalFilename := Some(ConvertedName);
      outcome := Done;
    }

    /** "Save changes": the editor's table replaces the stored one; the
        origin name is untouched. Only reachable inside the guarded branch. */
    method SaveChanges(edited: Table)
      requires HasTable()
      modifies this
      ensures df == Some(edited)
      ensures originalFilename == old(originalFilename)
      ensures old(Valid()) ==> Valid()
    {
      df := Some(edited);
    }

    /** The download button: offered exactly when a table is stored, with the
        stored table and the name derived from the stored origin name. */
    method Offer() returns (d: Option<Download<Table>>)
      ensures d.Some? <==> HasTable()
      ensures d.Some? ==> Some(d.value.table) == df
      ensures d.Some? ==> d.value.fileName == FileName.ExportName(originalFilename)
      ensures d.Some? ==> d.value.mime == CsvMime
    {
      if df.None? {
        return None;
      }
      d := Some(Download(df.value, FileName.ExportName(originalFilename), CsvMime));
    }

    /** One run of the page script. `convert` is the webhook's reply when the
        user clicked "Convert to sheet" with a file uploaded; `save` is the
        editor's table when the user clicked "Save changes". A failed
        conversion ends the run with the store untouched; otherwise the
        editor shows, and the download offers, the stored table after any
        save, under the derived name. A run starts from at most one button
        click, so a conversion and a save never happen in the same run. On a
        valid store the download is always `image_extracted_edited.csv`: the
        `edited_sheet.csv` fallback is never reached on this page. */
    method Rerun(convert: Option<Reply>, readCsv: string -> Option<Table>, save: Option<Table>)
      returns (view: View<Table>)
      requires convert.None? || save.None?
      requires Valid()
      modifies this
      ensures Valid()
      ensures view.Crashed? <==> convert.Some? && !Converts(convert.value, readCsv)
      ensures view.Crashed? ==> df == old(df) && originalFilename == old(originalFilename)
      ensures convert.Some? && convert.value.Reply? && IsErrorStatus(convert.value.status) ==>
        view == Crashed(HttpError(convert.value.status))
      ensures convert.Some? && Converts(convert.value, readCsv) ==>
        && originalFilename == Some(ConvertedName)
        && df == readCsv(Sanitizer.Sanitize(convert.value.body))
      ensures convert.None? ==> originalFilename == old(originalFilename)
      ensures !view.Crashed? ==> (view.Editor? <==> HasTable())
      ensures !view.Crashed? && (convert.Some? || old(HasTable())) ==> view.Editor?
      ensures view.Editor? ==> Some(view.table) == df
      ensures view.Editor? ==> view.downloadName == FileName.ExportName(originalFilename)
      ensures view.Editor? ==> view.downloadName == "image_extracted_edited.csv"
      ensures view.Editor? && save.Some? ==> df == save
      ensures convert.None? && save.None? ==> df == old(df)
      ensures convert.None? && !old(HasTable()) ==> view.Prompt? && df == old(df)
    {
      FileName.ExportNameAfterConvert();
      if convert.Some? {
        var outcome := Convert(convert.value, readCsv);
        if outcome.Raised? {
          return Crashed(outcome.error);
        }
      }
      if df.None? {
        return Prompt;
      }
      if save.Some? {
        SaveChanges(save.value);
      }
      var offer := Offer();
      view := Editor(offer.value.table, offer.value.fileName);
    }
  }

  /** A conversion followed by a saved edit: the editor shows the parsed
      table, then the edited one, and the download is named
      `image_extracted_edited.csv` both times. */
  method ConvertThenSave<Table>(body: string, readCsv: string -> Option<Table>, edited: Table)
    returns (first: View<Table>, second: View<Table>)
    requires readCsv(Sanitizer.Sanitize(body)).Some?
    ensures first == Editor(readCsv(Sanitizer.Sanitize(body)).value, "image_extracted_edited.csv")
    ensures second == Editor(edited, "image_extracted_edited.csv")
  {
    var session := new Session<Table>();
    first := session.Rerun(Some(Reply(200, body)), readCsv, None);
    second := session.Rerun(None, readCsv, Some(edited));
  }

  /** A rejected request stores nothing: the run ends with the HTTP error
      and the next run still shows the upload prompt. */
  method FailedConvertStoresNothing<Table>(status: int, body: string, readCsv: string -> Option<Table>)
    returns (first: View<Table>, second: View<Table>)
    requires IsErrorStatus(status)
    ensures first == Crashed(HttpError(status))
    ensures second == Prompt
  {
    var session := new Session<Table>();
    first := session.Rerun(Some(Reply(status, body)), readCsv, None);
    second := session.Rerun(None, readCsv, None);
  }
}
