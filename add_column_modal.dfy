/** The column editor (src/components/AddColumnModal.tsx): a draft of name,
  * type and status options that the user edits and finally submits as a
  * `Column`. Fresh option and column ids are passed in rather than read from
  * the clock. */
module AddColumnModal {
  import opened Types
  import opened Seqs
  import DatabaseView

  /** The twelve colours new status options cycle through. */
  const DefaultColors: seq<string> := [
    "#e9e9e7", "#f7dd72", "#4caf50", "#90caf9", "#ffb74d", "#f06292",
    "#ba68c8", "#64b5f6", "#81c784", "#ffd54f", "#ff8a65", "#a1887f"
  ]

  /** The option a draft gets when there are no options to start from. */
  const FirstOption: StatusOption := StatusOption("opt-1", "Option 1", DefaultColors[0])

  /** What the editor holds while the user works. */
  datatype Draft = Draft(name: string, fieldType: FieldType, statusOptions: seq<StatusOption>)

  /** The changes the option rows make: a new label or a new colour. */
  datatype Patch = Patch(caption: Option<string>, color: Option<string>)

  // ---------------------------------------------------------------------------
  // Numbers as text

  function DigitChar(d: nat): (c: char)
    requires d < 10
    ensures '0' <= c <= '9' && c as int - '0' as int == d
  {
    "0123456789"[d]
  }

  predicate AllDigits(s: string) {
    forall i :: 0 <= i < |s| ==> '0' <= s[i] <= '9'
  }

  /** The decimal text of `n`, as a template literal prints it. */
  function DecimalString(n: nat): (s: string)
    ensures |s| >= 1 && AllDigits(s)
    ensures s[0] == '0' <==> n == 0
    ensures |s| == 1 || s[0] != '0'
  {
    if n < 10 then [DigitChar(n)] else DecimalString(n / 10) + [DigitChar(n % 10)]
  }

  /** The number a string of decimal digits denotes. */
  function DecimalValue(s: string): nat
    requires AllDigits(s)
  {
    if s == [] then 0 else DecimalValue(s[..|s| - 1]) * 10 + (s[|s| - 1] as int - '0' as int)
  }

  lemma {:induction false} DecimalRoundTrip(n: nat)
    ensures DecimalValue(DecimalString(n)) == n
  {
    var s := DecimalString(n);
    if n >= 10 {
      DecimalRoundTrip(n / 10);
      assert s[..|s| - 1] == DecimalString(n / 10);
    }
  }

  /** Different numbers are printed differently. */
  lemma DecimalInjective(m: nat, n: nat)
    requires m != n
    ensures DecimalString(m) != DecimalString(n)
  {
    DecimalRoundTrip(m);
    DecimalRoundTrip(n);
  }

  // ---------------------------------------------------------------------------
  // Palette and labels

  /** The colour of the option created when the draft holds `n` options. */
  function PaletteColor(n: nat): (c: string)
    ensures c in DefaultColors
    ensures c == DefaultColors[n % |DefaultColors|]
  {
    DefaultColors[n % |DefaultColors|]
  }

  /** The automatic label of the `n`-th option. */
  function OptionLabel(n: nat): string {
    "Option " + DecimalString(n)
  }

  /** The palette repeats every twelve options. */
  lemma PaletteCycles(n: nat)
    ensures PaletteColor(n + |DefaultColors|) == PaletteColor(n)
  {
    assert |DefaultColors| == 12;
    assert (n + 12) % 12 == n % 12;
  }

  lemma PaletteDistinct()
    ensures Distinct(DefaultColors)
  {
  }

  /** Twelve options created one after another all get different colours. */
  lemma PaletteColorsDiffer(m: nat, n: nat)
    requires n < m < n + |DefaultColors|
    ensures PaletteColor(m) != PaletteColor(n)
  {
    PaletteDistinct();
    assert m % 12 != n % 12;
  }

  /** Options created at different lengths get different labels. */
  lemma OptionLabelsDiffer(m: nat, n: nat)
    requires m != n
    ensures OptionLabel(m) != OptionLabel(n)
  {
    DecimalInjective(m, n);
    assert OptionLabel(m)[7..] == DecimalString(m);
    assert OptionLabel(n)[7..] == DecimalString(n);
  }

  // ---------------------------------------------------------------------------
  // Draft operations

  /** The draft the editor opens with: the edited column's fields, or an empty
    * text column; the options fall back to `FirstOption` when the column has none. */
  function OpenDraft(column: Option<Column>): (d: Draft)
    ensures column.None? ==> d == Draft("", Text, [FirstOption])
    ensures column.Some? ==> d.name == column.value.name && d.fieldType == column.value.fieldType
    ensures column.Some? && column.value.statusOptions.Some? ==> d.statusOptions == column.value.statusOptions.value
    ensures column.Some? && column.value.statusOptions.None? ==> d.statusOptions == [FirstOption]
  {
    match column
    case None => Draft("", Text, [FirstOption])
    case Some(c) => Draft(c.name, c.fieldType, c.statusOptions.GetOr([FirstOption]))
  }

  function AddStatusOption(options: seq<StatusOption>, optionId: string): (r: seq<StatusOption>)
    ensures |r| == |options| + 1 && r[..|options|] == options
    ensures r[|options|].id == optionId
    ensures r[|options|].caption == OptionLabel(|options| + 1)
    ensures r[|options|].color in DefaultColors && r[|options|].color == PaletteColor(|options|)
  {
    options + [StatusOption(optionId, OptionLabel(|options| + 1), PaletteColor(|options|))]
  }

  function Merge(option: StatusOption, patch: Patch): StatusOption {
    StatusOption(option.id, patch.caption.GetOr(option.caption), patch.color.GetOr(option.color))
  }

  function UpdateStatusOption(options: seq<StatusOption>, optionId: string, patch: Patch): (r: seq<StatusOption>)
    ensures |r| == |options| && Keys(r, OptionKey) == Keys(options, OptionKey)
    ensures forall i :: 0 <= i < |options| && options[i].id != optionId ==> r[i] == options[i]
    ensures forall i :: 0 <= i < |options| && options[i].id == optionId ==>
              r[i].caption == patch.caption.GetOr(options[i].caption) && r[i].color == patch.color.GetOr(options[i].color)
  {
    seq(|options|, i requires 0 <= i < |options| =>
      if options[i].id == optionId then Merge(options[i], patch) else options[i])
  }

  /** Deleting is refused while only one option is left. */
  function DeleteStatusOption(options: seq<StatusOption>, optionId: string): (r: seq<StatusOption>)
    ensures |options| <= 1 ==> r == options
    ensures |options| > 1 ==> forall o :: o in r <==> o in options && o.id != optionId
    ensures |r| <= |options|
  {
    if |options| > 1 then RemoveKey(options, OptionKey, optionId) else options
  }

  lemma UpdateStatusOptionIdempotent(options: seq<StatusOption>, optionId: string, patch: Patch)
    ensures UpdateStatusOption(UpdateStatusOption(options, optionId, patch), optionId, patch)
            == UpdateStatusOption(options, optionId, patch)
  {
  }

  /** A patch for an id no option has changes nothing. */
  lemma UpdateStatusOptionUnknown(options: seq<StatusOption>, optionId: string, patch: Patch)
    requires optionId !in Keys(options, OptionKey)
    ensures UpdateStatusOption(options, optionId, patch) == options
  {
    var r := UpdateStatusOption(options, optionId, patch);
    forall i | 0 <= i < |options| ensures r[i] == options[i] {
      assert Keys(options, OptionKey)[i] == options[i].id;
    }
  }

  /** The list becomes empty exactly when it was empty already, or when it held
    * more than one option and every option carried the deleted id. */
  lemma DeleteStatusOptionEmpties(options: seq<StatusOption>, optionId: string)
    ensures DeleteStatusOption(options, optionId) == [] <==>
            options == [] || (|options| > 1 && forall i :: 0 <= i < |options| ==> options[i].id == optionId)
  {
    var r := DeleteStatusOption(options, optionId);
    if |options| > 1 {
      if r == [] {
        forall i | 0 <= i < |options| ensures options[i].id == optionId {
          assert options[i] in options;
        }
      } else {
        assert r[0] in r;
      }
    }
  }

  /** With distinct option ids, a draft that has an option never loses its last one. */
  lemma DeleteStatusOptionKeepsOne(options: seq<StatusOption>, optionId: string)
    requires Distinct(Keys(options, OptionKey)) && |options| >= 1
    ensures |DeleteStatusOption(options, optionId)| >= 1
  {
    DeleteStatusOptionEmpties(options, optionId);
    if |options| > 1 {
      assert Keys(options, OptionKey)[0] != Keys(options, OptionKey)[1];
    }
  }

  /** With distinct option ids, deleting a present option from two or more removes exactly that one. */
  lemma DeleteStatusOptionRemovesOne(options: seq<StatusOption>, optionId: string)
    requires Distinct(Keys(options, OptionKey)) && |options| > 1 && optionId in Keys(options, OptionKey)
    ensures |DeleteStatusOption(options, optionId)| == |options| - 1
  {
    RemoveKeyOne(options, OptionKey, optionId);
  }

  // ---------------------------------------------------------------------------
  // Trimming the name

  /** The characters `String.prototype.trim` removes: white space and line terminators. */
  predicate IsWhitespace(c: char) {
    c in {'\t', '\n', '\U{B}', '\U{C}', '\r', ' ', '\U{A0}', '\U{1680}',
          '\U{2000}', '\U{2001}', '\U{2002}', '\U{2003}', '\U{2004}', '\U{2005}',
          '\U{2006}', '\U{2007}', '\U{2008}', '\U{2009}', '\U{200A}',
          '\U{2028}', '\U{2029}', '\U{202F}', '\U{205F}', '\U{3000}', '\U{FEFF}'}
  }

  predicate AllWhitespace(s: string) {
    forall i :: 0 <= i < |s| ==> IsWhitespace(s[i])
  }

  /** The number of white-space characters at the start of `s`. */
  function LeadingSpace(s: string): (k: nat)
    ensures k <= |s| && AllWhitespace(s[..k])
    ensures k < |s| ==> !IsWhitespace(s[k])
  {
    if s != [] && IsWhitespace(s[0]) then
      var k := 1 + LeadingSpace(s[1..]);
      assert s[..k] == [s[0]] + s[1..][..k - 1];
      k
    else 0
  }

  /** The length of `s` without its trailing white space. */
  function TrailingStart(s: string): (k: nat)
    ensures k <= |s| && AllWhitespace(s[k..])
    ensures k > 0 ==> !IsWhitespace(s[k - 1])
  {
    if s != [] && IsWhitespace(s[|s| - 1]) then
      var k := TrailingStart(s[..|s| - 1]);
      assert s[k..] == s[..|s| - 1][k..] + [s[|s| - 1]];
      k
    else |s|
  }

  function Trim(s: string): (r: string)
    ensures r == [] <==> AllWhitespace(s)
    ensures r != [] ==> !IsWhitespace(r[0]) && !IsWhitespace(r[|r| - 1])
  {
    var a := LeadingSpace(s);
    var rest := s[a..];
    var b := TrailingStart(rest);
    if b == 0 then
      assert a == |s|;
      []
    else
      assert !IsWhitespace(s[a]);
      rest[..b]
  }

  /** Trimming removes exactly surrounding white space: a text with no white
    * space at its ends comes back unchanged from any white-space padding. */
  lemma TrimPadded(p: string, m: string, q: string)
    requires AllWhitespace(p) && AllWhitespace(q)
    requires m != [] ==> !IsWhitespace(m[0]) && !IsWhitespace(m[|m| - 1])
    ensures Trim(p + m + q) == m
  {
    if m == [] {
      assert p + m + q == p + q;
      ConcatWhitespace(p, q);
    } else {
      var s := p + m + q;
      LeadingSpaceOf(p, m + q);
      assert s == p + (m + q);
      assert s[|p|..] == m + q;
      TrailingStartOf(m, q);
      assert (m + q)[..|m|] == m;
    }
  }

  lemma ConcatWhitespace(p: string, q: string)
    requires AllWhitespace(p) && AllWhitespace(q)
    ensures AllWhitespace(p + q)
  {
    var s := p + q;
    forall i | 0 <= i < |s| ensures IsWhitespace(s[i]) {
      if i < |p| { assert s[i] == p[i]; } else { assert s[i] == q[i - |p|]; }
    }
  }

  lemma {:induction false} LeadingSpaceOf(p: string, t: string)
    requires AllWhitespace(p) && t != [] && !IsWhitespace(t[0])
    ensures LeadingSpace(p + t) == |p|
  {
    if p != [] {
      assert (p + t)[1..] == p[1..] + t;
      LeadingSpaceOf(p[1..], t);
    } else {
      assert p + t == t;
    }
  }

  lemma {:induction false} TrailingStartOf(t: string, q: string)
    requires AllWhitespace(q) && t != [] && !IsWhitespace(t[|t| - 1])
    ensures TrailingStart(t + q) == |t|
  {
    if q != [] {
      assert (t + q)[..|t + q| - 1] == t + q[..|q| - 1];
      TrailingStartOf(t, q[..|q| - 1]);
    } else {
      assert t + q == t;
    }
  }

  lemma TrimIdempotent(s: string)
    ensures Trim(Trim(s)) == Trim(s)
  {
    var t := Trim(s);
    TrimPadded([], t, []);
    assert [] + t + [] == t;
  }

  // ---------------------------------------------------------------------------
  // Submitting

  /** The column the editor hands on when submitted, or nothing when the
    * trimmed name is empty. An edited column keeps its id unless that id is
    * the empty string. */
  function Submit(draft: Draft, editing: Option<Column>, columnId: string): (r: Option<Column>)
    ensures r.None? <==> AllWhitespace(draft.name)
    ensures r.Some? ==> r.value.name == Trim(draft.name) && r.value.fieldType == draft.fieldType
    ensures r.Some? ==> (r.value.statusOptions.Some? <==> draft.fieldType == Status)
    ensures r.Some? && r.value.statusOptions.Some? ==> r.value.statusOptions.value == draft.statusOptions
    ensures r.Some? && editing.Some? && editing.value.id != "" ==> r.value.id == editing.value.id
    ensures r.Some? && (editing.None? || editing.value.id == "") ==> r.value.id == columnId
  {
    var name := Trim(draft.name);
    if name == [] then None
    else
      var id := if editing.Some? && editing.value.id != "" then editing.value.id else columnId;
      Some(Column(id, name, draft.fieldType, if draft.fieldType == Status then Some(draft.statusOptions) else None))
  }

  /** A submitted column can be added to the table whenever the draft had an option. */
  lemma SubmitHasDefault(draft: Draft, editing: Option<Column>, columnId: string)
    requires |draft.statusOptions| > 0
    requires Submit(draft, editing, columnId).Some?
    ensures DatabaseView.HasDefault(Submit(draft, editing, columnId).value)
  {
  }

  // ---------------------------------------------------------------------------
  // Sequences of edits

  datatype Edit =
    | SetName(name: string)
    | SetType(fieldType: FieldType)
    | AddOption(optionId: string)
    | UpdateOption(optionId: string, patch: Patch)
    | DeleteOption(optionId: string)

  function ApplyEdit(d: Draft, e: Edit): Draft
  {
    match e
    case SetName(name) => d.(name := name)
    case SetType(t) => d.(fieldType := t)
    case AddOption(id) => d.(statusOptions := AddStatusOption(d.statusOptions, id))
    case UpdateOption(id, patch) => d.(statusOptions := UpdateStatusOption(d.statusOptions, id, patch))
    case DeleteOption(id) => d.(statusOptions := DeleteStatusOption(d.statusOptions, id))
  }

  /** Every option id an edit adds is new to the draft. */
  predicate FreshEdits(d: Draft, edits: seq<Edit>)
    decreases |edits|
  {
    edits == [] ||
    ((edits[0].AddOption? ==> edits[0].optionId !in Keys(d.statusOptions, OptionKey))
     && FreshEdits(ApplyEdit(d, edits[0]), edits[1..]))
  }

  function ApplyEdits(d: Draft, edits: seq<Edit>): Draft
    decreases |edits|
  {
    if edits == [] then d else ApplyEdits(ApplyEdit(d, edits[0]), edits[1..])
  }

  /** The draft invariant: at least one option, all ids distinct. */
  predicate DraftOk(d: Draft) {
    |d.statusOptions| >= 1 && Distinct(Keys(d.statusOptions, OptionKey))
  }

  lemma ApplyEditKeepsDraftOk(d: Draft, e: Edit)
    requires DraftOk(d)
    requires e.AddOption? ==> e.optionId !in Keys(d.statusOptions, OptionKey)
    ensures DraftOk(ApplyEdit(d, e))
  {
    match e
    case AddOption(id) =>
      var r := AddStatusOption(d.statusOptions, id);
      KeysAppend(d.statusOptions, [r[|d.statusOptions|]], OptionKey);
      assert r == d.statusOptions + [r[|d.statusOptions|]];
    case DeleteOption(id) =>
      DeleteStatusOptionKeepsOne(d.statusOptions, id);
      if |d.statusOptions| > 1 { RemoveKeyDistinct(d.statusOptions, OptionKey, id); }
    case _ =>
  }

  lemma {:induction false} ApplyEditsKeepsDraftOk(d: Draft, edits: seq<Edit>)
    requires DraftOk(d) && FreshEdits(d, edits)
    ensures DraftOk(ApplyEdits(d, edits))
    decreases |edits|
  {
    if edits != [] {
      ApplyEditKeepsDraftOk(d, edits[0]);
      ApplyEditsKeepsDraftOk(ApplyEdit(d, edits[0]), edits[1..]);
    }
  }

  /** A new column's editor, after any edits with fresh option ids, submits a
    * column the table can add: the minimum of one option is never broken. */
  lemma NewColumnCanBeAdded(edits: seq<Edit>, columnId: string)
    requires FreshEdits(OpenDraft(None), edits)
    requires Submit(ApplyEdits(OpenDraft(None), edits), None, columnId).Some?
    ensures DatabaseView.HasDefault(Submit(ApplyEdits(OpenDraft(None), edits), None, columnId).value)
  {
    ApplyEditsKeepsDraftOk(OpenDraft(None), edits);
    SubmitHasDefault(ApplyEdits(OpenDraft(None), edits), None, columnId);
  }

  /** An existing column's editor, after any edits with fresh option ids,
    * submits a column with a usable default, provided the column's own options
    * list (when it has one) is non-empty with distinct ids. A present but empty
    * list is kept by the editor, so that case is excluded here. */
  lemma EditedColumnCanBeUpdated(c: Column, edits: seq<Edit>, columnId: string)
    requires c.statusOptions.Some? ==> |c.statusOptions.value| >= 1 && Distinct(Keys(c.statusOptions.value, OptionKey))
    requires FreshEdits(OpenDraft(Some(c)), edits)
    requires Submit(ApplyEdits(OpenDraft(Some(c)), edits), Some(c), columnId).Some?
    ensures DatabaseView.HasDefault(Submit(ApplyEdits(OpenDraft(Some(c)), edits), Some(c), columnId).value)
  {
    assert Keys([FirstOption], OptionKey) == ["opt-1"];
    ApplyEditsKeepsDraftOk(OpenDraft(Some(c)), edits);
    SubmitHasDefault(ApplyEdits(OpenDraft(Some(c)), edits), Some(c), columnId);
  }

  /** Labels count the options present, not the options ever made: after a
    * deletion the next option can repeat an existing label. */
  lemma LabelRepeatsAfterDelete()
    ensures var opts := AddStatusOption(DeleteStatusOption(
              AddStatusOption(AddStatusOption([FirstOption], "a"), "b"), "a"), "c");
            opts[1].caption == opts[2].caption == "Option 3"
  {
  }
}
