/** The habit form of the settings view (components/HabitManager.tsx): the
    name typed so far and the chosen category, and the submit handler that
    hands a trimmed, non-blank name to the store's `addHabit`. */
module HabitManager {

  import opened Wrappers
  import opened Types

  /** The characters `String.prototype.trim` removes: the ECMAScript
      WhiteSpace code points (tab, vertical tab, form feed, space, no-break
      space, byte order mark and the other space separators) and the
      LineTerminator code points. */
  predicate IsJsSpace(c: char)
  {
    c == '\t' || c == '\n' || c == '\U{000B}' || c == '\U{000C}' || c == '\r' || c == ' '
    || c == '\U{00A0}' || c == '\U{1680}' || ('\U{2000}' <= c <= '\U{200A}')
    || c == '\U{2028}' || c == '\U{2029}' || c == '\U{202F}' || c == '\U{205F}'
    || c == '\U{3000}' || c == '\U{FEFF}'
  }

  /** Every character of `s` is one `trim` removes (vacuously so for ""). */
  predicate Blank(s: string)
  {
    forall i :: 0 <= i < |s| ==> IsJsSpace(s[i])
  }

  /** The first position at or after `i` that `trim` keeps: the index of
      the first non-trimmable character from `i` on, or `|s|`. */
  function KeepFrom(s: string, i: nat): (k: nat)
    requires i <= |s|
    ensures i <= k <= |s|
    ensures forall j :: i <= j < k ==> IsJsSpace(s[j])
    ensures k == |s| || !IsJsSpace(s[k])
    decreases |s| - i
  {
    if i < |s| && IsJsSpace(s[i]) then KeepFrom(s, i + 1) else i
  }

  /** The end of what `trim` keeps when scanning back from `j` to `lo`: the
      position after the last non-trimmable character of `s[lo..j]`, or
      `lo`. */
  function KeepTo(s: string, lo: nat, j: nat): (e: nat)
    requires lo <= j <= |s|
    ensures lo <= e <= j
    ensures forall m :: e <= m < j ==> IsJsSpace(s[m])
    ensures e == lo || !IsJsSpace(s[e - 1])
    decreases j
  {
    if lo < j && IsJsSpace(s[j - 1]) then KeepTo(s, lo, j - 1) else j
  }

  /** `s.trim()`: the characters between the leading and the trailing runs
      of trimmable characters. Everything dropped is trimmable, and what is
      kept neither starts nor ends with a trimmable character. */
  function Trim(s: string): (r: string)
    ensures forall j :: 0 <= j < KeepFrom(s, 0) ==> IsJsSpace(s[j])
    ensures forall j :: KeepTo(s, KeepFrom(s, 0), |s|) <= j < |s| ==> IsJsSpace(s[j])
    ensures r == s[KeepFrom(s, 0)..KeepTo(s, KeepFrom(s, 0), |s|)]
    ensures r == [] || (!IsJsSpace(r[0]) && !IsJsSpace(r[|r| - 1]))
  {
    var a := KeepFrom(s, 0);
    var b := KeepTo(s, a, |s|);
    var r := s[a..b];
    assert r != [] ==> r[0] == s[a] && r[|r| - 1] == s[b - 1];
    r
  }

  /** A name trims to nothing exactly when it is blank: the `if
      (newName.trim())` test rejects the blank names and only those. */
  lemma TrimEmptyIffBlank(s: string)
    ensures Trim(s) == [] <==> Blank(s)
  {
    var a := KeepFrom(s, 0);
    if Trim(s) == [] {
      assert KeepTo(s, a, |s|) == a;
    }
  }

  /** Trimming twice is trimming once. */
  lemma TrimIdempotent(s: string)
    ensures Trim(Trim(s)) == Trim(s)
  {
    var r := Trim(s);
    assert KeepFrom(r, 0) == 0;
    assert KeepTo(r, 0, |r|) == |r|;
    assert r[0..|r|] == r;
  }

  /** The arguments of one `addHabit(name, category)` call. */
  datatype AddRequest = AddRequest(name: string, category: Category)

  /** The controlled inputs of the form. */
  class HabitForm {
    var newName: string
    var newCategory: Category

    /** The form opens with an empty name and the category `Other`. */
    constructor ()
      ensures newName == [] && newCategory == Other
    {
      newName := [];
      newCategory := Other;
    }

    /** The name input's `onChange`. */
    method SetName(value: string)
      modifies this`newName
      ensures newName == value
    {
      newName := value;
    }

    /** The category select's `onChange`. */
    method SetCategory(value: Category)
      modifies this`newCategory
      ensures newCategory == value
    {
      newCategory := value;
    }

    /** `handleSubmit`: a blank name does nothing; otherwise `addHabit` is
        called with the trimmed name and the chosen category, and the name
        input is cleared. The category stays selected. */
    method HandleSubmit() returns (call: Option<AddRequest>)
      modifies this`newName
      ensures Blank(old(newName)) ==> call.None? && newName == old(newName)
      ensures !Blank(old(newName)) ==>
                call == Some(AddRequest(Trim(old(newName)), newCategory)) && newName == []
      ensures call.Some? ==> var n := call.value.name;
                               n != [] && !IsJsSpace(n[0]) && !IsJsSpace(n[|n| - 1])
      ensures newCategory == old(newCategory)
    {
      var name := newName;
      var trimmed := Trim(name);
      TrimEmptyIffBlank(name);
      if trimmed != [] {
        call := Some(AddRequest(trimmed, newCategory));
        newName := [];
      } else {
        call := None;
      }
    }
  }

  /** The category select offers every category, each once. */
  lemma FormOffersEveryCategory(c: Category)
    ensures c in AllCategories()
  {
    assert AllCategories()[c.Index()] == c;
  }

}
