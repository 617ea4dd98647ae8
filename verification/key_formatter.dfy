/** Renderings of state keys (`KeyFormatter` and `KeyFormatters`, kept in
    the backend and, in a smaller copy, in the command-line tool): either the
    whole key in hex, or the key after its 8-byte column family prefix read
    as a run of Zeebe `DbValue` components and printed one after another,
    separated by ':'. How a component reads its bytes belongs to Zeebe and is
    the parameter `wrap`; column families are named by their constants. */
module KeyFormatter {

  import opened Wrappers
  import opened Bytes
  import opened Text
  import FamilyKeys
  import opened ColumnFamilies

  /** The component kinds a key format names. */
  datatype Component = DbString | DbLong | DbInt | DbByte | DbBytes

  /** The format letter of each kind. */
  function Letter(c: Component): char {
    match c
    case DbString => 's'
    case DbLong => 'l'
    case DbInt => 'i'
    case DbByte => 'b'
    case DbBytes => 'B'
  }

  /** The kind a format letter names, if any: exactly the kind whose letter
      it is. */
  function ComponentOf(ch: char): (r: Option<Component>)
    ensures forall c :: r == Some(c) <==> Letter(c) == ch
  {
    if ch == 's' then Some(DbString)
    else if ch == 'l' then Some(DbLong)
    else if ch == 'i' then Some(DbInt)
    else if ch == 'b' then Some(DbByte)
    else if ch == 'B' then Some(DbBytes)
    else None
  }

  const UNKNOWN_COMPONENT: string := "Unknown key format component: "

  /** `DbValueFormatter.of(keyFormat)`: one component per letter, in order;
      the first letter that names no kind throws. */
  function Of(format: string): (r: Result<seq<Component>>)
    ensures r.Ok? <==> forall k :: 0 <= k < |format| ==> ComponentOf(format[k]).Some?
    ensures r.Ok? ==> |r.value| == |format|
                      && forall k :: 0 <= k < |format| ==> ComponentOf(format[k]) == Some(r.value[k])
    ensures r.Throws? ==>
              exists k :: 0 <= k < |format| && ComponentOf(format[k]).None?
                          && (forall j :: 0 <= j < k ==> ComponentOf(format[j]).Some?)
                          && r.error == IllegalArgument(UNKNOWN_COMPONENT + [format[k]])
  {
    if format == [] then Ok([])
    else match ComponentOf(format[0])
      case None => Throws(IllegalArgument(UNKNOWN_COMPONENT + [format[0]]))
      case Some(c) =>
        var rest := Of(format[1..]);
        assert forall k :: 1 <= k < |format| ==> format[k] == format[1..][k - 1];
        if rest.Throws? then
          assert exists k :: 0 <= k < |format| && ComponentOf(format[k]).None?
                             && (forall j :: 0 <= j < k ==> ComponentOf(format[j]).Some?)
                             && rest.error == IllegalArgument(UNKNOWN_COMPONENT + [format[k]]) by {
            var k :| 0 <= k < |format[1..]| && ComponentOf(format[1..][k]).None?
                     && (forall j :: 0 <= j < k ==> ComponentOf(format[1..][j]).Some?)
                     && rest.error == IllegalArgument(UNKNOWN_COMPONENT + [format[1..][k]]);
            assert forall j :: 0 <= j < k + 1 ==> ComponentOf(format[j]).Some? by {
              forall j | 0 < j < k + 1 ensures ComponentOf(format[j]).Some? {
                assert format[j] == format[1..][j - 1];
              }
            }
          }
          Throws(rest.error)
        else
          var r := [c] + rest.value;
          assert forall k :: 0 <= k < |format| ==> ComponentOf(format[k]) == Some(r[k]) by {
            forall k | 0 < k < |format| ensures ComponentOf(format[k]) == Some(r[k]) {
              assert r[k] == rest.value[k - 1];
            }
          }
          Ok(r)
  }

  /** The format string of a run of components: their letters. */
  function FormatOf(values: seq<Component>): (format: string)
    ensures |format| == |values|
  {
    seq(|values|, k requires 0 <= k < |values| => Letter(values[k]))
  }

  /** Formats and component runs are one another's inverse: every run has a
      format that parses back to it, and every format that parses is the
      format of what it parses to. */
  lemma OfFormatOf(values: seq<Component>, format: string)
    ensures Of(FormatOf(values)) == Ok(values)
    ensures Of(format).Ok? ==> FormatOf(Of(format).value) == format
  {
    var f := FormatOf(values);
    assert forall k :: 0 <= k < |f| ==> ComponentOf(f[k]) == Some(values[k]);
    var r := Of(f);
    assert r.value == values;
    if Of(format).Ok? {
      var g := FormatOf(Of(format).value);
      assert forall k :: 0 <= k < |format| ==> g[k] == format[k];
    }
  }

  /** A component as read from a key. */
  datatype Field = Text(text: string) | Number(value: int) | Blob(bytes: Bytes)

  /** The text `formatKey` appends for a field: a string as itself, a
      number in decimal, a byte array in hex. */
  function Render(f: Field): string {
    match f
    case Text(t) => t
    case Number(v) => IntToString(v)
    case Blob(bs) => Hex(bs)
  }

  /** `dbValue.wrap(keyBuffer, offset, key.length - offset)` followed by
      `getLength()`: the field a component reads at an offset of the key and
      the number of bytes it spans, or the exception reading it throws. */
  type Wrap = (Component, Bytes, nat) -> Result<(Field, nat)>

  /** The rendered fields of a run of components read one after another
      from `offset` on; the first read that throws ends the run with its
      exception. */
  function Fields(values: seq<Component>, key: Bytes, offset: nat, wrap: Wrap): (r: Result<seq<string>>)
    ensures r.Ok? ==> |r.value| == |values|
    ensures values == [] ==> r == Ok([])
    ensures values != [] && wrap(values[0], key, offset).Throws? ==> r == Throws(wrap(values[0], key, offset).error)
    decreases |values|
  {
    if values == [] then Ok([])
    else
      var read :- wrap(values[0], key, offset);
      var rest :- Fields(values[1..], key, offset + read.1, wrap);
      Ok([Render(read.0)] + rest)
  }

  /** The loop of `formatKey` appending `parts` to the text `formatted`: a
      ':' goes before a part only when the text so far is not empty. */
  function AppendAsWritten(formatted: string, parts: seq<string>): string
    decreases |parts|
  {
    if parts == [] then formatted
    else AppendAsWritten((if formatted != "" then formatted + ":" else formatted) + parts[0], parts[1..])
  }

  /** The text `formatKey` builds from the rendered fields, as written. */
  function GlueAsWritten(parts: seq<string>): string {
    AppendAsWritten("", parts)
  }

  /** The rendered fields joined with ':', one separator between each two:
      what the separator test evidently intends. */
  function Glue(parts: seq<string>): string {
    Join(parts, ":")
  }

  /** The fields without the empty ones at the front. */
  function DropLeadingEmpty(parts: seq<string>): (r: seq<string>)
    ensures |r| <= |parts|
    ensures r == [] || r[0] != ""
    ensures r == parts[|parts| - |r|..]
  {
    if parts == [] then []
    else if parts[0] == "" then DropLeadingEmpty(parts[1..])
    else parts
  }

  /** Once the text is not empty, every later part gets its separator. */
  lemma {:induction false} AppendAfterText(formatted: string, parts: seq<string>)
    requires formatted != "" && parts != []
    ensures AppendAsWritten(formatted, parts) == formatted + ":" + Join(parts, ":")
    decreases |parts|
  {
    var next := formatted + ":" + parts[0];
    if |parts| > 1 {
      AppendAfterText(next, parts[1..]);
    }
  }

  /** What the separator test does: empty fields at the front vanish
      without a separator, and the rest are joined as intended. */
  lemma {:induction false} GlueAsWrittenDropsLeadingEmpty(parts: seq<string>)
    ensures GlueAsWritten(parts) == Glue(DropLeadingEmpty(parts))
    decreases |parts|
  {
    if parts != [] {
      if parts[0] == "" {
        assert AppendAsWritten("", parts) == AppendAsWritten("", parts[1..]) by {
          assert "" + parts[0] == "";
        }
        GlueAsWrittenDropsLeadingEmpty(parts[1..]);
      } else {
        assert AppendAsWritten("", parts) == AppendAsWritten(parts[0], parts[1..]) by {
          assert "" + parts[0] == parts[0];
        }
        if |parts| > 1 {
          AppendAfterText(parts[0], parts[1..]);
        }
      }
    }
  }

  /** As written, a key whose first field is empty renders like a key
      without that field: two fields "" and "a" print as "a", and splitting
      at ':' does not give the fields back. */
  lemma LeadingEmptyFieldVanishes()
    ensures GlueAsWritten(["", "a"]) == GlueAsWritten(["a"]) == "a"
    ensures Split(GlueAsWritten(["", "a"]), ':') != ["", "a"]
  {
    assert AppendAsWritten("", ["a"]) == "a" by {
      assert "" + "a" == "a";
      assert ["a"][1..] == [];
    }
    assert AppendAsWritten("", ["", "a"]) == AppendAsWritten("", ["a"]) by {
      assert "" + "" == "";
      assert ["", "a"][1..] == ["a"];
    }
    assert Split("a", ':') == ["a"] by {
      assert ':' !in "a";
    }
  }

  /** Joined as intended, fields free of ':' split back into exactly the
      fields, empty ones included. */
  lemma GlueRoundTrip(parts: seq<string>)
    requires |parts| > 0 && forall k :: 0 <= k < |parts| ==> ':' !in parts[k]
    ensures Split(Glue(parts), ':') == parts
  {
    SplitJoin(parts, ':');
  }

  /** The two agree whenever the first field is not empty. */
  lemma GlueAgrees(parts: seq<string>)
    requires parts == [] || parts[0] != ""
    ensures GlueAsWritten(parts) == Glue(parts)
  {
    GlueAsWrittenDropsLeadingEmpty(parts);
  }

  /** A `KeyFormatter`: hex, or a run of components. */
  datatype Formatter = HexFormatter | DbValueFormatter(values: seq<Component>)

  /** `formatKey(key)` of the backend: hex for the hex formatter; otherwise
      the fields read after the family prefix, joined as written, and the
      whole key in hex when a read runs out of bounds. Other exceptions
      escape. As written, empty fields at the front vanish from the text. */
  function FormatKey(f: Formatter, key: Bytes, wrap: Wrap): (r: Result<string>)
    ensures r.Throws? ==> r.error != IndexOutOfBounds
    ensures r.Throws? <==>
              f.DbValueFormatter? && Fields(f.values, key, FamilyKeys.PREFIX_LENGTH, wrap).Throws?
              && Fields(f.values, key, FamilyKeys.PREFIX_LENGTH, wrap).error != IndexOutOfBounds
    ensures f.DbValueFormatter? && Fields(f.values, key, FamilyKeys.PREFIX_LENGTH, wrap).Ok? ==>
              r == Ok(Glue(DropLeadingEmpty(Fields(f.values, key, FamilyKeys.PREFIX_LENGTH, wrap).value)))
  {
    match f
    case HexFormatter => Ok(Hex(key))
    case DbValueFormatter(values) =>
      match Fields(values, key, FamilyKeys.PREFIX_LENGTH, wrap)
      case Ok(parts) =>
        GlueAsWrittenDropsLeadingEmpty(parts);
        Ok(GlueAsWritten(parts))
      case Throws(IndexOutOfBounds) => Ok(Hex(key))
      case Throws(e) => Throws(e)
  }

  /** `formatKey(key)` with one separator between each two fields, as the
      separator test evidently intends; everything else as written. */
  function FormatKeyIntended(f: Formatter, key: Bytes, wrap: Wrap): (r: Result<string>)
    ensures r.Throws? <==> FormatKey(f, key, wrap).Throws?
    ensures r.Throws? ==> r == FormatKey(f, key, wrap)
    ensures f.DbValueFormatter? && Fields(f.values, key, FamilyKeys.PREFIX_LENGTH, wrap).Ok? ==>
              var parts := Fields(f.values, key, FamilyKeys.PREFIX_LENGTH, wrap).value;
              (parts == [] || parts[0] != "") ==> r == FormatKey(f, key, wrap)
  {
    match f
    case HexFormatter => Ok(Hex(key))
    case DbValueFormatter(values) =>
      match Fields(values, key, FamilyKeys.PREFIX_LENGTH, wrap)
      case Ok(parts) =>
        GlueAsWrittenDropsLeadingEmpty(parts);
        Ok(Glue(parts))
      case Throws(IndexOutOfBounds) => Ok(Hex(key))
      case Throws(e) => Throws(e)
  }

  /** As intended, the fields of a key formatted by components can be read
      back from the text when none contains ':'. */
  lemma FormatKeyRoundTrip(values: seq<Component>, key: Bytes, wrap: Wrap)
    requires values != []
    requires var parts := Fields(values, key, FamilyKeys.PREFIX_LENGTH, wrap);
             parts.Ok? && forall k :: 0 <= k < |parts.value| ==> ':' !in parts.value[k]
    ensures FormatKeyIntended(DbValueFormatter(values), key, wrap).Ok?
    ensures Split(FormatKeyIntended(DbValueFormatter(values), key, wrap).value, ':')
            == Fields(values, key, FamilyKeys.PREFIX_LENGTH, wrap).value
  {
    GlueRoundTrip(Fields(values, key, FamilyKeys.PREFIX_LENGTH, wrap).value);
  }

  /** As written, the round trip holds too as long as the first field is
      not empty; `LeadingEmptyFieldVanishes` shows that it fails otherwise. */
  lemma FormatKeyAsWrittenRoundTrip(values: seq<Component>, key: Bytes, wrap: Wrap)
    requires values != []
    requires var parts := Fields(values, key, FamilyKeys.PREFIX_LENGTH, wrap);
             parts.Ok? && parts.value[0] != "" && forall k :: 0 <= k < |parts.value| ==> ':' !in parts.value[k]
    ensures FormatKey(DbValueFormatter(values), key, wrap).Ok?
    ensures Split(FormatKey(DbValueFormatter(values), key, wrap).value, ':')
            == Fields(values, key, FamilyKeys.PREFIX_LENGTH, wrap).value
  {
    FormatKeyRoundTrip(values, key, wrap);
  }

  /** When the hex rendering is used, directly or as the fallback after an
      out-of-bounds read, the whole key can be read back from the text. */
  lemma HexFallbackRoundTrip(f: Formatter, key: Bytes, wrap: Wrap)
    requires f.HexFormatter? || Fields(f.values, key, FamilyKeys.PREFIX_LENGTH, wrap) == Throws(IndexOutOfBounds)
    ensures FormatKey(f, key, wrap).Ok? && ParseHex(FormatKey(f, key, wrap).value) == Some(key)
  {
    ParseHexOfHex(key);
  }

  /** `formatKey(key)` of the command-line tool, joined as written: the
      same, except that nothing is caught, so an out-of-bounds read escapes
      instead of falling back to hex. */
  function FormatKeyCli(f: Formatter, key: Bytes, wrap: Wrap): (r: Result<string>)
    ensures f.DbValueFormatter? ==> (r.Throws? <==> Fields(f.values, key, FamilyKeys.PREFIX_LENGTH, wrap).Throws?)
    ensures f.DbValueFormatter? && Fields(f.values, key, FamilyKeys.PREFIX_LENGTH, wrap).Ok? ==>
              r == Ok(Glue(DropLeadingEmpty(Fields(f.values, key, FamilyKeys.PREFIX_LENGTH, wrap).value)))
  {
    match f
    case HexFormatter => Ok(Hex(key))
    case DbValueFormatter(values) =>
      var parts :- Fields(values, key, FamilyKeys.PREFIX_LENGTH, wrap);
      GlueAsWrittenDropsLeadingEmpty(parts);
      Ok(GlueAsWritten(parts))
  }

  /** The two copies print the same text whenever every read succeeds, and
      differ only in what an out-of-bounds read does. */
  lemma CliAgreesWithBackend(f: Formatter, key: Bytes, wrap: Wrap)
    ensures FormatKeyCli(f, key, wrap).Ok? ==> FormatKey(f, key, wrap) == FormatKeyCli(f, key, wrap)
    ensures FormatKeyCli(f, key, wrap) == Throws(IndexOutOfBounds) ==>
              FormatKey(f, key, wrap) == Ok(Hex(key))
    ensures FormatKeyCli(f, key, wrap).Throws? && FormatKeyCli(f, key, wrap).error != IndexOutOfBounds ==>
              FormatKey(f, key, wrap) == FormatKeyCli(f, key, wrap)
  {
  }

  /** The two copies of the formatters. */
  datatype Copy = Backend | Cli

  /** The format each copy registers for a column family
      (`KeyFormatters.FORMATTERS`), if any. */
  function Registered(copy: Copy, family: Family): Option<string> {
    match copy
    case Backend => BackendFormat(family)
    case Cli => CliFormat(family)
  }

  function BackendFormat(family: Family): Option<string> {
    match family
    case DEFAULT => Some("s")
    case KEY => Some("s")
    case ELEMENT_INSTANCE_PARENT_CHILD => Some("ll")
    case ELEMENT_INSTANCE_KEY => Some("l")
    case NUMBER_OF_TAKEN_SEQUENCE_FLOWS => Some("lss")
    case ELEMENT_INSTANCE_CHILD_PARENT => Some("l")
    case VARIABLES => Some("ls")
    case TIMERS => Some("ll")
    case TIMER_DUE_DATES => Some("lll")
    case PENDING_DEPLOYMENT => Some("li")
    case DEPLOYMENT_RAW => Some("l")
    case JOBS => Some("l")
    case JOB_STATES => Some("l")
    case JOB_DEADLINES => Some("ll")
    case MESSAGE_KEY => Some("l")
    case MESSAGE_DEADLINES => Some("l")
    case MESSAGE_IDS => Some("sss")
    case MESSAGE_CORRELATED => Some("ls")
    case MESSAGE_PROCESSES_ACTIVE_BY_CORRELATION_KEY => Some("ss")
    case MESSAGE_PROCESS_INSTANCE_CORRELATION_KEYS => Some("l")
    case MESSAGE_SUBSCRIPTION_BY_KEY => Some("ls")
    case INCIDENTS => Some("l")
    case INCIDENT_PROCESS_INSTANCES => Some("l")
    case INCIDENT_JOBS => Some("l")
    case EVENT_SCOPE => Some("l")
    case EVENT_TRIGGER => Some("ll")
    case BANNED_INSTANCE => Some("l")
    case EXPORTER => Some("s")
    case AWAIT_WORKLOW_RESULT => Some("l")
    case JOB_BACKOFF => Some("ll")
    case PENDING_DISTRIBUTION => Some("li")
    case COMMAND_DISTRIBUTION_RECORD => Some("l")
    case MESSAGE_STATS => Some("ls")
    case PROCESS_INSTANCE_KEY_BY_DEFINITION_KEY => Some("ll")
    case MIGRATIONS_STATE => Some("s")
    case PROCESS_VERSION => Some("ss")
    case PROCESS_CACHE => Some("sl")
    case PROCESS_CACHE_BY_ID_AND_VERSION => Some("ssl")
    case PROCESS_CACHE_DIGEST_BY_ID => Some("ss")
    case DMN_DECISIONS => Some("sl")
    case DMN_DECISION_REQUIREMENTS => Some("sl")
    case DMN_LATEST_DECISION_BY_ID => Some("ss")
    case DMN_LATEST_DECISION_REQUIREMENTS_BY_ID => Some("ss")
    case DMN_DECISION_KEY_BY_DECISION_REQUIREMENTS_KEY => Some("slsl")
    case DMN_DECISION_KEY_BY_DECISION_ID_AND_VERSION => Some("ssi")
    case DMN_DECISION_REQUIREMENTS_KEY_BY_DECISION_REQUIREMENT_ID_AND_VERSION => Some("ssi")
    case FORMS => Some("sl")
    case FORM_VERSION => Some("ss")
    case FORM_BY_ID_AND_VERSION => Some("ssl")
    case MESSAGES => Some("sssl")
    case MESSAGE_START_EVENT_SUBSCRIPTION_BY_NAME_AND_KEY => Some("ssl")
    case MESSAGE_START_EVENT_SUBSCRIPTION_BY_KEY_AND_NAME => Some("lss")
    case MESSAGE_SUBSCRIPTION_BY_NAME_AND_CORRELATION_KEY => Some("sssl")
    case PROCESS_SUBSCRIPTION_BY_KEY => Some("lss")
    case JOB_ACTIVATABLE => Some("ssl")
    case SIGNAL_SUBSCRIPTION_BY_NAME_AND_KEY => Some("ssl")
    case SIGNAL_SUBSCRIPTION_BY_KEY_AND_NAME => Some("lss")
    case USER_TASKS => Some("l")
    case USER_TASK_STATES => Some("l")
    case COMPENSATION_SUBSCRIPTION => Some("sll")
    case Other(_) => None
  }

  function CliFormat(family: Family): Option<string> {
    match family
    case DEFAULT => Some("s")
    case KEY => Some("s")
    case BANNED_INSTANCE => Some("l")
    case MESSAGE_SUBSCRIPTION_BY_KEY => Some("ls")
    case _ => None
  }

  /** Every registered format parses, so building the registries never
      throws and loading either class succeeds. */
  lemma RegisteredFormatsParse()
    ensures forall copy, family :: Registered(copy, family).Some? ==> Of(Registered(copy, family).value).Ok?
  {
    ShortFormatsParse();
    LongFormatsParse();
  }

  /** The registered formats of one or two letters parse. */
  lemma ShortFormatsParse()
    ensures Of("l").Ok? && Of("li").Ok? && Of("ll").Ok? && Of("ls").Ok?
    ensures Of("s").Ok? && Of("sl").Ok? && Of("ss").Ok?
  {
    assert Of("l").Ok?;
    assert Of("li").Ok?;
    assert Of("ll").Ok?;
    assert Of("ls").Ok?;
    assert Of("s").Ok?;
    assert Of("sl").Ok?;
    assert Of("ss").Ok?;
  }

  /** The registered formats of three or four letters parse. */
  lemma LongFormatsParse()
    ensures Of("lll").Ok? && Of("lss").Ok? && Of("sll").Ok? && Of("slsl").Ok?
    ensures Of("ssi").Ok? && Of("ssl").Ok? && Of("sss").Ok? && Of("sssl").Ok?
  {
    assert Of("lll").Ok?;
    assert Of("lss").Ok?;
    assert Of("sll").Ok?;
    assert Of("slsl").Ok?;
    assert Of("ssi").Ok?;
    assert Of("ssl").Ok?;
    assert Of("sss").Ok?;
    assert Of("sssl").Ok?;
  }

  /** The three `KeyFormatters`: `ofDefault()`, `ofHex()` and
      `ofFormat(format)`. */
  datatype Formatters = Default | HexOnly | Format(format: string)

  /** `forColumnFamily(family)`: the registered formatter of the family or
      hex when none is registered; always hex; or a formatter parsed from
      the given format on each call, which throws for a bad format. */
  function ForColumnFamily(copy: Copy, fs: Formatters, family: Family): (r: Result<Formatter>)
    ensures fs.HexOnly? ==> r == Ok(HexFormatter)
    ensures fs.Default? ==> r.Ok? && (r.value.DbValueFormatter? <==> Registered(copy, family).Some?)
    ensures fs.Default? && r.value.DbValueFormatter? ==> Some(FormatOf(r.value.values)) == Registered(copy, family)
    ensures fs.Format? ==> (r.Ok? <==> Of(fs.format).Ok?)
    ensures fs.Format? && r.Ok? ==> r.value.DbValueFormatter? && FormatOf(r.value.values) == fs.format
  {
    match fs
    case HexOnly => Ok(HexFormatter)
    case Default =>
      if Registered(copy, family).None? then Ok(HexFormatter)
      else
        var format := Registered(copy, family).value;
        RegisteredFormatsParse();
        OfFormatOf([], format);
        Ok(DbValueFormatter(Of(format).value))
    case Format(format) =>
      var values :- Of(format);
      OfFormatOf([], format);
      Ok(DbValueFormatter(values))
  }
}
