/**
 * The closed set of selection combination modes, the toolbar actions that
 * select them, and the short labels by which `set_mode` accepts them.
 *
 * Each action's label is derived from its caption the way the toolbar does:
 * the first whitespace-separated word, lower-cased, with every `&` (the Qt
 * mnemonic marker) removed. The derived labels form a lookup table from
 * label to mode.
 */
module EditModes {
  import opened Options

  /** The boolean rule applied when a new selection meets an existing subset. */
  datatype Mode = Replace | Or | And | Xor | AndNot

  /** One toggle action of the toolbar: caption, tool tip, icon name, mode. */
  datatype ModeAction = ModeAction(caption: string, tip: string, icon: string, mode: Mode)

  /** The actions in the order the toolbar creates them. */
  const Actions: seq<ModeAction> := [
    ModeAction("&Replace Mode", "Replace selection", "glue_replace", Replace),
    ModeAction("&Or Mode", "Add to selection", "glue_or", Or),
    ModeAction("&And Mode", "Set selection as intersection", "glue_and", And),
    ModeAction("&Xor Mode", "Set selection as exclusive intersection", "glue_xor", Xor),
    ModeAction("&Not Mode", "Remove from selection", "glue_andnot", AndNot)
  ]

  /**
   * Reference definition of the label each mode is reachable by, written
   * independently of the captions. Note that AndNot is reached by `not`.
   */
  function LabelOf(m: Mode): string {
    match m
    case Replace => "replace"
    case Or => "or"
    case And => "and"
    case Xor => "xor"
    case AndNot => "not"
  }

  // ---------------------------------------------------------------------
  // Label derivation: the caption's first word, lower-cased, ampersands removed
  // ---------------------------------------------------------------------

  /**
   * Whitespace as `str.split()` with no separator treats it: the characters
   * for which Python 3's `str.isspace` holds, namely U+0009 to U+000D,
   * U+001C to U+001F, the space, U+0085, U+00A0, U+1680, U+2000 to U+200A,
   * U+2028, U+2029, U+202F, U+205F and U+3000.
   */
  predicate IsSpace(c: char) {
    var n := c as int;
    || 0x09 <= n <= 0x0D
    || 0x1C <= n <= 0x20
    || n == 0x85 || n == 0xA0 || n == 0x1680
    || 0x2000 <= n <= 0x200A
    || n == 0x2028 || n == 0x2029 || n == 0x202F || n == 0x205F || n == 0x3000
  }

  /** The index of the first non-whitespace character of `s` at or after `i`. */
  function SkipSpace(s: string, i: nat): (j: nat)
    requires i <= |s|
    ensures i <= j <= |s|
    ensures forall k :: i <= k < j ==> IsSpace(s[k])
    ensures j == |s| || !IsSpace(s[j])
    decreases |s| - i
  {
    if i < |s| && IsSpace(s[i]) then SkipSpace(s, i + 1) else i
  }

  /** The index of the first whitespace character of `s` at or after `i`, or |s|. */
  function WordEnd(s: string, i: nat): (j: nat)
    requires i <= |s|
    ensures i <= j <= |s|
    ensures forall k :: i <= k < j ==> !IsSpace(s[k])
    ensures j == |s| || IsSpace(s[j])
    decreases |s| - i
  {
    if i < |s| && !IsSpace(s[i]) then WordEnd(s, i + 1) else i
  }

  /**
   * The first word of `s` as `s.split()[0]` finds it; None where `split`
   * returns an empty list and indexing it fails.
   */
  function FirstWord(s: string): (r: Option<string>)
    ensures r.None? <==> forall i :: 0 <= i < |s| ==> IsSpace(s[i])
    ensures r.Some? ==> r.value != [] && forall i :: 0 <= i < |r.value| ==> !IsSpace(r.value[i])
  {
    var start := SkipSpace(s, 0);
    if start == |s| then None else Some(s[start..WordEnd(s, start)])
  }

  /** ASCII lower-casing of one character. */
  function LowerChar(c: char): char {
    if IsUpper(c) then (c as int - 'A' as int + 'a' as int) as char else c
  }

  /** `s.lower()` on ASCII text. */
  function Lower(s: string): (r: string)
    ensures |r| == |s|
    ensures forall i :: 0 <= i < |s| ==> r[i] == LowerChar(s[i])
  {
    if s == [] then [] else [LowerChar(s[0])] + Lower(s[1..])
  }

  /** `s.replace('&', '')`: every character of `s` except the ampersands, in order. */
  function DropAmpersands(s: string): (r: string)
    ensures '&' !in r
    ensures |r| <= |s|
    ensures '&' !in s ==> r == s
    ensures forall c :: c != '&' ==> multiset(r)[c] == multiset(s)[c]
  {
    if s == [] then []
    else
      assert s == [s[0]] + s[1..];
      if s[0] == '&' then DropAmpersands(s[1..]) else [s[0]] + DropAmpersands(s[1..])
  }

  /**
   * DropAmpersands works character by character and keeps the order:
   * dropping from a concatenation concatenates the two results.
   */
  lemma {:induction false} DropAmpersandsAppend(a: string, b: string)
    ensures DropAmpersands(a + b) == DropAmpersands(a) + DropAmpersands(b)
    decreases |a|
  {
    if a != [] {
      assert (a + b)[1..] == a[1..] + b;
      DropAmpersandsAppend(a[1..], b);
    } else {
      assert a + b == b;
    }
  }

  /** On one character DropAmpersands removes an ampersand and keeps anything else. */
  lemma DropAmpersandsChar(c: char)
    ensures DropAmpersands([c]) == if c == '&' then [] else [c]
  {
  }

  /**
   * The first word really is taken from `s`: it is the stretch of `s` that
   * follows the leading whitespace and stops at the next whitespace or at
   * the end.
   */
  lemma FirstWordIsLeadingWord(s: string)
    ensures FirstWord(s).Some? ==>
      exists i, j ::
        && 0 <= i < j <= |s|
        && FirstWord(s).value == s[i..j]
        && (forall k :: 0 <= k < i ==> IsSpace(s[k]))
        && (j == |s| || IsSpace(s[j]))
  {
    if FirstWord(s).Some? {
      var i := SkipSpace(s, 0);
      var j := WordEnd(s, i);
      assert FirstWord(s).value == s[i..j];
    }
  }

  /** An ASCII upper-case letter. */
  predicate IsUpper(c: char) {
    'A' <= c <= 'Z'
  }

  /**
   * The label the toolbar derives from an action caption; None when the
   * caption has no word. A label is never empty of meaning: it holds no
   * `&`, no whitespace and no upper-case ASCII letter.
   */
  function DeriveLabel(caption: string): (r: Option<string>)
    ensures r.None? <==> forall i :: 0 <= i < |caption| ==> IsSpace(caption[i])
    ensures r.Some? ==> '&' !in r.value
    ensures r.Some? ==> forall i :: 0 <= i < |r.value| ==> !IsSpace(r.value[i]) && !IsUpper(r.value[i])
  {
    match FirstWord(caption)
    case None => None
    case Some(w) =>
      LabelOfWordIsPlain(w);
      Some(DropAmpersands(Lower(w)))
  }

  /** Lower-casing a space-free word and dropping its ampersands leaves no space and no capital. */
  lemma LabelOfWordIsPlain(w: string)
    requires forall i :: 0 <= i < |w| ==> !IsSpace(w[i])
    ensures forall i :: 0 <= i < |DropAmpersands(Lower(w))| ==>
      !IsSpace(DropAmpersands(Lower(w))[i]) && !IsUpper(DropAmpersands(Lower(w))[i])
  {
    var lw := Lower(w);
    var r := DropAmpersands(lw);
    forall i | 0 <= i < |r| ensures !IsSpace(r[i]) && !IsUpper(r[i]) {
      var x := r[i];
      assert x in multiset(r);
      assert x in multiset(lw);
      var k :| 0 <= k < |lw| && lw[k] == x;
      assert x == LowerChar(w[k]);
    }
  }

  /** The label of an action whose caption has a word. */
  function ActionLabel(a: ModeAction): string
    requires DeriveLabel(a.caption).Some?
  {
    DeriveLabel(a.caption).value
  }

  /** Every caption has a word to derive a label from. */
  predicate AllLabelled(actions: seq<ModeAction>) {
    forall i :: 0 <= i < |actions| ==> DeriveLabel(actions[i].caption).Some?
  }

  /** One entry the toolbar writes into its table: label to mode. */
  datatype Registration = Registration(name: string, mode: Mode)

  /** The registrations of the actions, in order; None when a caption has no word. */
  function Registrations(actions: seq<ModeAction>): (r: Option<seq<Registration>>)
    ensures r.Some? <==> AllLabelled(actions)
    ensures r.Some? ==> |r.value| == |actions|
    ensures r.Some? ==> forall i :: 0 <= i < |actions| ==>
      r.value[i] == Registration(ActionLabel(actions[i]), actions[i].mode)
  {
    if actions == [] then Some([])
    else
      var head := DeriveLabel(actions[0].caption);
      var tail := Registrations(actions[1..]);
      AllLabelledSplit(actions);
      if head.None? || tail.None? then None
      else Some([Registration(head.value, actions[0].mode)] + tail.value)
  }

  /** A non-empty action list is labelled when its head and its tail are. */
  lemma AllLabelledSplit(actions: seq<ModeAction>)
    requires actions != []
    ensures AllLabelled(actions) <==> DeriveLabel(actions[0].caption).Some? && AllLabelled(actions[1..])
  {
  }

  /** The labels a sequence of registrations mentions. */
  function Names(regs: seq<Registration>): set<string> {
    set i | 0 <= i < |regs| :: regs[i].name
  }

  /**
   * The table after writing the registrations in order: it holds exactly
   * the registered labels, and each label maps to its LAST registration.
   */
  function Register(regs: seq<Registration>): (table: map<string, Mode>)
    ensures table.Keys == Names(regs)
    ensures forall i :: 0 <= i < |regs| && (forall j :: i < j < |regs| ==> regs[j].name != regs[i].name) ==>
      table[regs[i].name] == regs[i].mode
  {
    if regs == [] then map[]
    else
      var front := regs[..|regs| - 1];
      var last := regs[|regs| - 1];
      assert forall i :: 0 <= i < |front| ==> front[i] == regs[i];
      assert Names(regs) == Names(front) + {last.name};
      Register(front)[last.name := last.mode]
  }

  /**
   * The label part of the toolbar's `_modes` table, built by registering the
   * actions in order; None when a caption has no word, where the toolbar's
   * construction fails.
   */
  function BuildLabelTable(actions: seq<ModeAction>): (r: Option<map<string, Mode>>)
    ensures r.Some? <==> AllLabelled(actions)
    ensures r.Some? ==> forall l :: l in r.value <==> exists i :: 0 <= i < |actions| && ActionLabel(actions[i]) == l
    ensures r.Some? ==> forall i :: 0 <= i < |actions| && (forall j :: i < j < |actions| ==> ActionLabel(actions[j]) != ActionLabel(actions[i])) ==>
      r.value[ActionLabel(actions[i])] == actions[i].mode
  {
    match Registrations(actions)
    case None => None
    case Some(regs) => Some(Register(regs))
  }

  /**
   * A caption whose first word runs from its first character up to `wordEnd`
   * derives `expected` when that word lower-cases to `&` followed by `expected`.
   */
  lemma CaptionLabel(caption: string, wordEnd: nat, expected: string)
    requires 0 < wordEnd <= |caption| && !IsSpace(caption[0])
    requires WordEnd(caption, 0) == wordEnd
    requires Lower(caption[..wordEnd]) == ['&'] + expected && '&' !in expected
    ensures DeriveLabel(caption) == Some(expected)
  {
  }

  // The five captions, one lemma each so that every proof stays small.

  lemma ReplaceCaptionLabel()
    ensures DeriveLabel("&Replace Mode") == Some("replace")
  {
    CaptionLabel("&Replace Mode", 8, "replace");
  }

  lemma OrCaptionLabel()
    ensures DeriveLabel("&Or Mode") == Some("or")
  {
    CaptionLabel("&Or Mode", 3, "or");
  }

  lemma AndCaptionLabel()
    ensures DeriveLabel("&And Mode") == Some("and")
  {
    CaptionLabel("&And Mode", 4, "and");
  }

  lemma XorCaptionLabel()
    ensures DeriveLabel("&Xor Mode") == Some("xor")
  {
    CaptionLabel("&Xor Mode", 4, "xor");
  }

  lemma NotCaptionLabel()
    ensures DeriveLabel("&Not Mode") == Some("not")
  {
    CaptionLabel("&Not Mode", 4, "not");
  }

  /** Each action's caption derives exactly the reference label of its mode. */
  lemma CaptionDerivesLabel(i: nat)
    requires i < |Actions|
    ensures DeriveLabel(Actions[i].caption) == Some(LabelOf(Actions[i].mode))
  {
    if i == 0 {
      ReplaceCaptionLabel();
    } else if i == 1 {
      OrCaptionLabel();
    } else if i == 2 {
      AndCaptionLabel();
    } else if i == 3 {
      XorCaptionLabel();
    } else {
      NotCaptionLabel();
    }
  }

  /** No mode is given to two actions. */
  predicate ModesDistinct(actions: seq<ModeAction>) {
    forall i, j :: 0 <= i < j < |actions| ==> actions[i].mode != actions[j].mode
  }

  /** Every action's caption derives the reference label of its mode. */
  predicate CaptionsMatchLabels(actions: seq<ModeAction>) {
    forall i :: 0 <= i < |actions| ==> DeriveLabel(actions[i].caption) == Some(LabelOf(actions[i].mode))
  }

  /**
   * When every caption derives its mode's reference label and no mode is
   * repeated, the built table holds exactly those labels, each mapped to
   * its own action's mode.
   */
  lemma BuildLabelTableOfMatchingCaptions(actions: seq<ModeAction>)
    requires CaptionsMatchLabels(actions) && ModesDistinct(actions)
    ensures BuildLabelTable(actions).Some?
    ensures forall l :: l in BuildLabelTable(actions).value <==>
      exists i :: 0 <= i < |actions| && LabelOf(actions[i].mode) == l
    ensures forall i :: 0 <= i < |actions| ==>
      BuildLabelTable(actions).value[LabelOf(actions[i].mode)] == actions[i].mode
  {
    var regs := Registrations(actions).value;
    assert forall i :: 0 <= i < |actions| ==> regs[i] == Registration(LabelOf(actions[i].mode), actions[i].mode);
    forall i | 0 <= i < |regs|
      ensures forall j :: i < j < |regs| ==> regs[j].name != regs[i].name
    {
      forall j | i < j < |regs| ensures regs[j].name != regs[i].name {
        LabelOfInjective(actions[i].mode, actions[j].mode);
      }
    }
  }

  /** Distinct modes have distinct labels. */
  lemma LabelOfInjective(m: Mode, n: Mode)
    requires m != n
    ensures LabelOf(m) != LabelOf(n)
  {
  }

  /** The toolbar's own captions derive the reference labels. */
  lemma ActionsMatchLabels()
    ensures CaptionsMatchLabels(Actions)
  {
    forall i | 0 <= i < |Actions|
      ensures DeriveLabel(Actions[i].caption) == Some(LabelOf(Actions[i].mode))
    {
      CaptionDerivesLabel(i);
    }
  }

  /**
   * The position of the action that selects `m`: the mode-keyed part of the
   * `_modes` table, which maps each mode to its action.
   */
  function ActionIndex(m: Mode): (i: nat)
    ensures i < |Actions| && Actions[i].mode == m
    ensures forall j :: 0 <= j < |Actions| && Actions[j].mode == m ==> j == i
  {
    match m
    case Replace => 0
    case Or => 1
    case And => 2
    case Xor => 3
    case AndNot => 4
  }

  /** The modes the actions select. */
  function ModeSet(actions: seq<ModeAction>): set<Mode> {
    set a | a in actions :: a.mode
  }

  /**
   * What the toolbar's table construction relies on: each caption derives
   * its mode's reference label, no mode is repeated, and every mode has an
   * action.
   */
  predicate WellFormedActions(actions: seq<ModeAction>) {
    && CaptionsMatchLabels(actions)
    && ModesDistinct(actions)
    && forall m :: m in ModeSet(actions)
  }

  /**
   * From well-formed actions the toolbar builds a table that holds exactly
   * the reference label of every mode, each mapped to that mode.
   */
  lemma LabelTableOfWellFormed(actions: seq<ModeAction>)
    requires WellFormedActions(actions)
    ensures BuildLabelTable(actions).Some?
    ensures forall l :: l in BuildLabelTable(actions).value <==> exists m :: LabelOf(m) == l
    ensures forall m :: BuildLabelTable(actions).value[LabelOf(m)] == m
  {
    BuildLabelTableOfMatchingCaptions(actions);
    var table := BuildLabelTable(actions).value;
    forall m ensures LabelOf(m) in table && table[LabelOf(m)] == m {
      assert m in ModeSet(actions);
      var a :| a in actions && a.mode == m;
      var i :| 0 <= i < |actions| && actions[i] == a;
      assert table[LabelOf(actions[i].mode)] == actions[i].mode;
    }
  }

  /** The toolbar's own five actions are well formed. */
  lemma ActionsWellFormed()
    ensures WellFormedActions(Actions)
  {
    ActionsMatchLabels();
    forall i, j | 0 <= i < j < |Actions| ensures Actions[i].mode != Actions[j].mode {
      assert ActionIndex(Actions[j].mode) == j;
    }
    forall m ensures m in ModeSet(Actions) {
      assert Actions[ActionIndex(m)] in Actions;
    }
  }

  /** The label part of the toolbar's `_modes` table. */
  function LabelTable(): (table: map<string, Mode>)
    ensures forall l :: l in table <==> exists m :: LabelOf(m) == l
    ensures forall m :: table[LabelOf(m)] == m
  {
    ActionsWellFormed();
    LabelTableOfWellFormed(Actions);
    BuildLabelTable(Actions).value
  }

  /**
   * `_modes[name]` for a string key: the mode whose label is `name`, or None
   * (the toolbar raises KeyError). The match is exact and case-sensitive.
   */
  function LookupLabel(name: string): (r: Option<Mode>)
    ensures forall m :: r == Some(m) <==> LabelOf(m) == name
  {
    var table := LabelTable();
    if name in table then Some(table[name]) else None
  }

  /** The lookup is exact: the capitalised names in `set_mode`'s docstring are not labels. */
  lemma DocumentedNamesAreNotLabels()
    ensures LookupLabel("Replace").None? && LookupLabel("Or").None? && LookupLabel("And").None?
    ensures LookupLabel("Xor").None? && LookupLabel("Not").None?
  {
  }

  /** AndNot is reached by `not`, the first word of its caption, and not by `andnot`. */
  lemma AndNotIsReachedByNot()
    ensures LookupLabel("not") == Some(AndNot)
    ensures LookupLabel("andnot").None? && LookupLabel("and") == Some(And)
  {
  }
}
