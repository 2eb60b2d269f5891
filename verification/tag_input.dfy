/**
 * The ingredient tag field: a text input plus the list of tags entered so
 * far. Tags are added with the "+" button or the Enter key and removed by
 * position.
 */
module TagInput {
  import opened JsStrings
  import opened Lists

  /** The tag list (owned by the parent component) and the text field's current value. */
  datatype TagField = TagField(tags: seq<string>, input: string)

  /** Keys that reach `handleInputKeyDown`; only Enter is acted upon. */
  datatype Key = Enter | OtherKey

  /** User interactions with the component. */
  datatype Event =
    | Change(value: string)   // typing into the field
    | KeyDown(key: Key)
    | ClickAdd                // the "+" button
    | Delete(index: int)      // the "×" button of one tag

  /** The invariant the component keeps on its list: distinct, non-empty, trimmed tags. */
  predicate WellFormedTags(tags: seq<string>) {
    && NoDuplicates(tags)
    && forall k :: 0 <= k < |tags| ==> tags[k] != "" && IsTrimmed(tags[k])
  }

  /**
   * `addTag`: the trimmed input joins the end of the list when it is not
   * blank and not already present (exact, case-sensitive comparison, as
   * `Array.prototype.includes` does for strings); the field is cleared only
   * then. A rejected input stays in the field untouched.
   */
  function AddTag(f: TagField): (r: TagField)
    ensures |r.tags| == |f.tags| + 1 <==> Trim(f.input) != "" && Trim(f.input) !in f.tags
    ensures |r.tags| == |f.tags| + 1 ==>
              r.tags[..|f.tags|] == f.tags && r.tags[|f.tags|] == Trim(f.input) && r.input == ""
    ensures |r.tags| != |f.tags| + 1 ==> r == f
    ensures WellFormedTags(f.tags) ==> WellFormedTags(r.tags)
  {
    var t := Trim(f.input);
    if t != "" && t !in f.tags then
      var tags' := f.tags + [t];
      assert forall a :: 0 <= a < |f.tags| ==> tags'[a] == f.tags[a];
      TagField(tags', "")
    else f
  }

  /**
   * `handleInputKeyDown`: Enter adds a tag unless the input is blank; any
   * other key does nothing.
   */
  function HandleKeyDown(f: TagField, key: Key): (r: TagField)
    ensures key != Enter ==> r == f
    ensures AllWhiteSpace(f.input) ==> r == f
    ensures key == Enter ==> r == AddTag(f)
  {
    if key == Enter && Trim(f.input) != "" then AddTag(f) else f
  }

  /**
   * `handleDelete`: drops the tag at `index`; an index outside the list
   * leaves it unchanged. The text field is not touched.
   */
  function HandleDelete(f: TagField, index: int): (r: TagField)
    ensures r.input == f.input
    ensures 0 <= index < |f.tags| ==>
              |r.tags| == |f.tags| - 1 && r.tags == f.tags[..index] + f.tags[index + 1..]
    ensures !(0 <= index < |f.tags|) ==> r == f
    ensures WellFormedTags(f.tags) ==> WellFormedTags(r.tags)
  {
    var tags' := RemoveIndex(f.tags, index);
    assert WellFormedTags(f.tags) ==> WellFormedTags(tags') by {
      if WellFormedTags(f.tags) {
        RemoveIndexKeepsNoDuplicates(f.tags, index);
        assert forall k :: 0 <= k < |tags'| ==> tags'[k] in f.tags;
      }
    }
    TagField(tags', f.input)
  }

  /** One interaction: `handleInputChange`, `handleInputKeyDown`, the "+" button, or a tag's "×". */
  function Step(f: TagField, e: Event): TagField {
    match e
    case Change(v) => TagField(f.tags, v)
    case KeyDown(k) => HandleKeyDown(f, k)
    case ClickAdd => AddTag(f)
    case Delete(i) => HandleDelete(f, i)
  }

  /** A session: the interactions applied in order. */
  function Run(f: TagField, es: seq<Event>): TagField
    decreases |es|
  {
    if es == [] then f else Run(Step(f, es[0]), es[1..])
  }

  /** However the user interacts, a well-formed list stays well-formed: in particular, never a duplicate tag. */
  lemma {:induction false} RunKeepsWellFormed(f: TagField, es: seq<Event>)
    requires WellFormedTags(f.tags)
    ensures WellFormedTags(Run(f, es).tags)
    decreases |es|
  {
    if es != [] {
      RunKeepsWellFormed(Step(f, es[0]), es[1..]);
    }
  }

  /** The blank-input guard in `handleInputKeyDown` is redundant: `addTag` already rejects blank input. */
  lemma EnterGuardIsRedundant(f: TagField)
    ensures HandleKeyDown(f, Enter) == AddTag(f)
  {
  }

  /** Tags differing only in letter case are distinct tags. */
  lemma AddTagIsCaseSensitive()
    ensures AddTag(TagField(["egg"], " Egg ")) == TagField(["egg", "Egg"], "")
  {
    TrimPaddedEgg();
    CaseDistinguishesTags();
    AddTagAppends(TagField(["egg"], " Egg "), "Egg");
    AppendEgg();
  }

  /** The example's steps: the two spellings differ, ... */
  lemma CaseDistinguishesTags()
    ensures "Egg" !in ["egg"]
  {
    assert "Egg"[0] != "egg"[0];
  }

  /** ... the appended list is the two-tag list, ... */
  lemma AppendEgg()
    ensures ["egg"] + ["Egg"] == ["egg", "Egg"]
  {
  }

  /** ... a fresh, non-blank trimmed input is appended and the field cleared, ... */
  lemma AddTagAppends(f: TagField, t: string)
    requires Trim(f.input) == t && t != "" && t !in f.tags
    ensures AddTag(f) == TagField(f.tags + [t], "")
  {
  }

  /** ... and trimming strips exactly the two spaces. */
  lemma TrimPaddedEgg()
    ensures Trim(" Egg ") == "Egg"
  {
    assert LeadingWhiteSpace(" Egg ") == 1;
    assert " Egg "[1..] == "Egg ";
    assert TrailingWhiteSpace("Egg ") == 1;
    assert " Egg "[1..4] == "Egg";
  }
}
