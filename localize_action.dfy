/// The localize action: the selected text gets a translation key, the key and
/// the text are merged into the chosen JSON resource file, and the selection
/// is replaced by an angular-translate reference to the key that was used.

module LocalizeAction {
  import opened Json
  import TranslationIds

  /** What the action finds when it opens the resource file: the parsed
      top-level object, or the message of the exception that reading or
      parsing the file raised. */
  datatype Document = Parsed(entries: Object) | Unparsable(message: string)

  /** The ways adding an entry fails; each surfaces as a notification. */
  datatype Failure = ReadOnly | ParseError(message: string) | Conflict

  datatype Result<T> = Ok(value: T) | Err(failure: Failure)

  /** The outcome of the merge: the key the text ends up under, the entries
      afterwards, and whether the entries have to be written back. */
  datatype Merged = Merged(id: string, entries: Object, written: bool)

  /** What the action does to the editor: replace the selection, or leave it
      and show an error notification. */
  datatype Effect = Replaced(newText: string) | Notified(message: string)

  /** The exception message shown for a failure. */
  function Message(f: Failure): (m: string)
    ensures f == ReadOnly ==> m == "File is read only."
    ensures f == Conflict ==> m == "Translation ID conflict."
    ensures f.ParseError? ==> m == f.message
  {
    match f
    case ReadOnly => "File is read only."
    case ParseError(message) => message
    case Conflict => "Translation ID conflict."
  }

  /** The key tried when the derived key already holds a different text. */
  function Disambiguated(id: string): string {
    id + "_2"
  }

  /** A key holds a string that differs from `text`. */
  predicate HoldsOtherString(entries: Object, id: string, text: string) {
    id in entries && entries[id].Str? && entries[id].s != text
  }

  /** The merge decision of `addTranslationEntry` once the file is parsed. A
      key holding the same string is reused without a write; a free key, or one
      holding a non-string value (JSON null too), receives the text; a key
      holding a different string sends the text to `id + "_2"`, unless that key
      holds anything other than null, which is a conflict. */
  function Merge(entries: Object, id: string, text: string): (r: Result<Merged>)
    ensures id in entries && entries[id] == Str(text) ==>
      r == Ok(Merged(id, entries, false))
    ensures id !in entries || !entries[id].Str? ==>
      r == Ok(Merged(id, entries[id := Str(text)], true))
    ensures HoldsOtherString(entries, id, text) && Get(entries, Disambiguated(id)) == Null ==>
      r == Ok(Merged(Disambiguated(id), entries[Disambiguated(id) := Str(text)], true))
    ensures r.Err? <==> HoldsOtherString(entries, id, text) && Get(entries, Disambiguated(id)) != Null
    ensures r.Err? ==> r.failure == Conflict
    ensures r.Ok? ==>
      && (r.value.id == id || r.value.id == Disambiguated(id))
      && r.value.id in r.value.entries && r.value.entries[r.value.id] == Str(text)
      && r.value.entries.Keys == entries.Keys + {r.value.id}
      && (forall k :: k in entries && k != r.value.id ==> r.value.entries[k] == entries[k])
      && (!r.value.written ==> r.value.entries == entries)
  {
    var value := Get(entries, id);
    if value.Str? && value.s == text then
      Ok(Merged(id, entries, false))
    else if value.Str? && Get(entries, Disambiguated(id)) != Null then
      Err(Conflict)
    else
      var key := if value.Str? then Disambiguated(id) else id;
      Ok(Merged(key, entries[key := Str(text)], true))
  }

  /** `addTranslationEntry` as a function of the file's state: a read-only file
      fails before anything is read, an unreadable one fails with the parser's
      message, and otherwise the merge decides. */
  function AddEntry(readOnly: bool, document: Document, id: string, text: string): (r: Result<Merged>)
    ensures readOnly ==> r == Err(ReadOnly)
    ensures !readOnly && document.Unparsable? ==> r == Err(ParseError(document.message))
    ensures !readOnly && document.Parsed? ==> r == Merge(document.entries, id, text)
  {
    if readOnly then Err(ReadOnly)
    else match document
      case Unparsable(message) => Err(ParseError(message))
      case Parsed(entries) => Merge(entries, id, text)
  }

  /** The replacement text for the selection: a reference to the key in the
      angular-translate filter syntax. */
  function Reference(id: string): (r: string)
    ensures |r| == |id| + 20
    ensures r[..4] == "{{ '" && r[|r| - 16..] == "' | translate }}"
  {
    "{{ '" + id + "' | translate }}"
  }

  /** The key can be read back out of the reference, so distinct keys give
      distinct references. */
  lemma ReferenceRecoversId(id: string)
    ensures Reference(id)[4..|id| + 4] == id
  {
    var r := Reference(id);
    assert r == "{{ '" + id + "' | translate }}";
    assert forall i :: 0 <= i < |id| ==> r[4 + i] == id[i];
  }

  lemma ReferenceInjective(a: string, b: string)
    requires Reference(a) == Reference(b)
    ensures a == b
  {
    ReferenceRecoversId(a);
    ReferenceRecoversId(b);
  }

  /** A key derived from any text, or its `_2` variant, holds no quote, so the
      reference is a single well-formed quoted literal. */
  lemma DerivedReferenceQuoted(text: string, id: string)
    requires id == TranslationIds.TranslationId(text) || id == Disambiguated(TranslationIds.TranslationId(text))
    ensures forall i :: 4 <= i < |id| + 4 ==> Reference(id)[i] != '\''
  {
    var derived := TranslationIds.TranslationId(text);
    TranslationIds.TranslationIdAlphabet(text);
    ReferenceRecoversId(id);
    assert forall i :: 0 <= i < |id| ==> id[i] != '\'' by {
      forall i | 0 <= i < |id|
        ensures id[i] != '\''
      {
        if i < |derived| {
          assert id[i] == derived[i];
          assert TranslationIds.IsKeyChar(derived[i]);
        }
      }
    }
    assert forall i :: 4 <= i < |id| + 4 ==> Reference(id)[i] == id[i - 4];
  }

  /** Localizing the same text again after it was stored under the derived key
      reuses that key and writes nothing. */
  lemma RelocalizeReuses(entries: Object, id: string, text: string)
    requires Merge(entries, id, text).Ok? && Merge(entries, id, text).value.id == id
    ensures Merge(Merge(entries, id, text).value.entries, id, text) ==
      Ok(Merged(id, Merge(entries, id, text).value.entries, false))
  {
  }

  /** Localizing the same text again after it was stored under `id + "_2"`
      fails: the derived key still holds the other text, and `id + "_2"` is now
      taken, even though it holds this very text. */
  lemma RelocalizeAfterDisambiguationConflicts(entries: Object, id: string, text: string)
    requires Merge(entries, id, text).Ok? && Merge(entries, id, text).value.id == Disambiguated(id)
    ensures Merge(Merge(entries, id, text).value.entries, id, text) == Err(Conflict)
  {
    var m := Merge(entries, id, text).value;
    assert id != Disambiguated(id) by {
      assert |Disambiguated(id)| == |id| + 2;
    }
    assert HoldsOtherString(entries, id, text);
    assert m.entries[id] == entries[id];
  }

  /** The translation resource file the action writes to. */
  class ResourceFile {
    /** The file stays read-only after the IDE was asked to make it writable. */
    var readOnly: bool
    /** The file's content as the parser sees it. */
    var document: Document
    /** How many times the entries have been saved back to the file. */
    var saves: nat

    constructor (readOnly: bool, document: Document)
      ensures this.readOnly == readOnly && this.document == document && saves == 0
    {
      this.readOnly := readOnly;
      this.document := document;
      saves := 0;
    }

    /** `addTranslationEntry`: returns the key the text is stored under, and
        saves the updated entries only when the merge changed them. */
    method AddTranslationEntry(translationId: string, text: string) returns (r: Result<string>)
      modifies this
      ensures readOnly == old(readOnly)
      ensures var outcome := AddEntry(old(readOnly), old(document), translationId, text);
        match outcome
        case Ok(m) =>
          && r == Ok(m.id)
          && document == (if m.written then Parsed(m.entries) else old(document))
          && saves == old(saves) + (if m.written then 1 else 0)
        case Err(f) =>
          r == Err(f) && document == old(document) && saves == old(saves)
    {
      if readOnly {
        return Err(ReadOnly);
      }
      if document.Unparsable? {
        return Err(ParseError(document.message));
      }
      var json := document.entries;
      var id := translationId;
      var value := Get(json, id);
      if value.Str? {
        if value.s == text {
          return Ok(id);
        }
        id := id + "_2";
        if Get(json, id) != Null {
          return Err(Conflict);
        }
      }
      json := json[id := Str(text)];
      document := Parsed(json);
      saves := saves + 1;
      return Ok(id);
    }

    /** `translate`: derives the key from the selected text, adds the entry,
        and replaces the selection with a reference to the key actually used;
        on any failure the selection stays and the message is shown. */
    method Translate(selectedText: string) returns (effect: Effect)
      modifies this
      ensures var id := TranslationIds.TranslationId(selectedText);
        var outcome := AddEntry(old(readOnly), old(document), id, selectedText);
        && (outcome.Ok? ==> effect == Replaced(Reference(outcome.value.id)))
        && (outcome.Err? ==> effect == Notified(Message(outcome.failure)))
        && (outcome.Ok? && outcome.value.written ==> document == Parsed(outcome.value.entries))
        && (!(outcome.Ok? && outcome.value.written) ==> document == old(document))
        && saves == old(saves) + (if outcome.Ok? && outcome.value.written then 1 else 0)
      ensures readOnly == old(readOnly)
    {
      var translationId := TranslationIds.TranslationId(selectedText);
      var r := AddTranslationEntry(translationId, selectedText);
      match r
      case Ok(id) =>
        effect := Replaced(Reference(id));
      case Err(f) =>
        effect := Notified(Message(f));
    }
  }
}
