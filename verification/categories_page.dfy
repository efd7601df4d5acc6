/**
 * The admin category form: the slug it derives from the name while creating, what opening the
 * dialog loads, and the request a save sends.
 */
module CategoriesPage {
  import opened Wrappers
  import opened Seqs
  import opened Text
  import opened ArticleModel
  import opened CategoryModel

  /** A category as the admin panel receives it. */
  datatype UiCategory = UiCategory(id: string, name: string, slug: string, description: string, color: string)

  /** The dialog's state: the category being edited, if any, and the four inputs. */
  datatype CategoryForm = CategoryForm(
    editing: Option<UiCategory>,
    name: string,
    slug: string,
    description: string,
    color: string,
    open: bool)

  /** The colour a new category starts with. */
  const DefaultColor: string := "#8B0000"

  /** The fields a save sends. */
  datatype CategoryData = CategoryData(name: string, slug: string, description: string, color: string)

  /** A save: create a category, or update the one being edited. */
  datatype SaveRequest = CreateRequest(data: CategoryData) | UpdateRequest(id: string, data: CategoryData)

  // ---------------------------------------------------------------------------------------------
  // Slug derivation
  // ---------------------------------------------------------------------------------------------

  /**
   * `name.toLowerCase().replace(/\s+/g, '-').replace(/[^a-z0-9-]/g, '')`: lower-case, hyphenate
   * white-space runs, then drop every character the category slug pattern does not allow.
   */
  function DeriveSlug(name: string): (r: string)
    ensures All(r, IsCategorySlugChar)
    ensures |r| <= |name|
    ensures r != [] ==> IsCategorySlug(r)
  {
    Filter(IsCategorySlugChar, CollapseSpaces(Lower(name)))
  }

  /** A string of slug characters derives to itself. */
  lemma DeriveSlugOfSlug(s: string)
    requires All(s, IsCategorySlugChar)
    ensures DeriveSlug(s) == s
  {
    LowerIdentity(s);
    assert NoneOf(s, IsSpace);
    FilterKeepsAll(IsCategorySlugChar, s);
  }

  /** The strings that derive to themselves are exactly the strings of slug characters. */
  lemma DeriveSlugFixedPoints(s: string)
    ensures DeriveSlug(s) == s <==> All(s, IsCategorySlugChar)
  {
    if All(s, IsCategorySlugChar) {
      DeriveSlugOfSlug(s);
    }
  }

  /** Deriving twice gives what deriving once gives. */
  lemma DeriveSlugIdempotent(name: string)
    ensures DeriveSlug(DeriveSlug(name)) == DeriveSlug(name)
  {
    DeriveSlugOfSlug(DeriveSlug(name));
  }

  /** The leading white space of a run of spaces followed by a non-space is the run. */
  lemma LeadingSpacesOfRun(spaces: string, b: string)
    requires All(spaces, IsSpace)
    requires b == [] || !IsSpace(b[0])
    ensures LeadingSpaces(spaces + b) == |spaces|
  {
    var s := spaces + b;
    assert forall i :: 0 <= i < |spaces| ==> s[i] == spaces[i];
    assert |spaces| < |s| ==> s[|spaces|] == b[0];
  }

  /** `replace(/\s+/g, '-')` turns one run of white space between two space-free strings into one hyphen. */
  lemma {:induction false} CollapseSpacesJoin(a: string, spaces: string, b: string)
    requires NoneOf(a, IsSpace) && NoneOf(b, IsSpace)
    requires spaces != [] && All(spaces, IsSpace)
    ensures CollapseSpaces(a + spaces + b) == a + "-" + b
    decreases |a|
  {
    var s := a + spaces + b;
    if a == [] {
      assert s == spaces + b;
      LeadingSpacesOfRun(spaces, b);
      assert TrimStart(s) == b;
    } else {
      assert s[0] == a[0] && s[1..] == a[1..] + spaces + b;
      CollapseSpacesJoin(a[1..], spaces, b);
      assert [a[0]] + (a[1..] + "-" + b) == a + "-" + b;
    }
  }

  /** Two words of slug characters separated by any run of white space derive to the words joined by one hyphen. */
  lemma DeriveSlugJoinsWords(a: string, spaces: string, b: string)
    requires All(a, IsCategorySlugChar) && All(b, IsCategorySlugChar)
    requires spaces != [] && All(spaces, IsSpace)
    ensures DeriveSlug(a + spaces + b) == a + "-" + b
  {
    var s := a + spaces + b;
    assert forall i :: 0 <= i < |s| ==> !IsAsciiUpper(s[i]) by {
      forall i | 0 <= i < |s| ensures !IsAsciiUpper(s[i]) {
        if i < |a| { assert s[i] == a[i]; }
        else if i < |a| + |spaces| { assert s[i] == spaces[i - |a|]; }
        else { assert s[i] == b[i - |a| - |spaces|]; }
      }
    }
    LowerIdentity(s);
    CollapseSpacesJoin(a, spaces, b);
    var joined := a + "-" + b;
    assert All(joined, IsCategorySlugChar) by {
      forall i | 0 <= i < |joined| ensures IsCategorySlugChar(joined[i]) {
        if i < |a| { assert joined[i] == a[i]; }
        else if i > |a| { assert joined[i] == b[i - |a| - 1]; }
      }
    }
    FilterKeepsAll(IsCategorySlugChar, joined);
  }

  // ---------------------------------------------------------------------------------------------
  // The dialog
  // ---------------------------------------------------------------------------------------------

  /** `handleOpenDialog(category?)`: load the category's fields, or empty fields and the default colour. */
  function OpenDialog(category: Option<UiCategory>): (r: CategoryForm)
    ensures r.open && r.editing == category
    ensures category.Some? ==>
      CategoryData(r.name, r.slug, r.description, r.color)
        == CategoryData(category.value.name, category.value.slug, category.value.description, category.value.color)
    ensures category.None? ==> r.name == [] && r.slug == [] && r.description == [] && r.color == DefaultColor
  {
    match category
    case Some(c) => CategoryForm(category, c.name, c.slug, c.description, c.color, true)
    case None => CategoryForm(None, "", "", "", DefaultColor, true)
  }

  /** `handleNameChange(value)`: set the name, and derive the slug from it only while creating. */
  function NameChange(f: CategoryForm, value: string): (r: CategoryForm)
    ensures r.name == value
    ensures f.editing.Some? ==> r.slug == f.slug
    ensures f.editing.None? ==> r.slug == DeriveSlug(value)
    ensures r.editing == f.editing && r.description == f.description && r.color == f.color && r.open == f.open
  {
    var named := f.(name := value);
    if f.editing.None? then named.(slug := DeriveSlug(value)) else named
  }

  /** `handleSave`: nothing without a name and a slug, otherwise an update of the edited category or a create. */
  function Save(f: CategoryForm): (r: Option<SaveRequest>)
    ensures r.None? <==> f.name == [] || f.slug == []
    ensures r.Some? ==> r.value.data == CategoryData(f.name, f.slug, f.description, f.color)
    ensures r.Some? ==> (r.value.UpdateRequest? <==> f.editing.Some?)
    ensures r.Some? && f.editing.Some? ==> r.value.id == f.editing.value.id
  {
    if f.name == [] || f.slug == [] then None
    else
      var data := CategoryData(f.name, f.slug, f.description, f.color);
      match f.editing
      case Some(c) => Some(UpdateRequest(c.id, data))
      case None => Some(CreateRequest(data))
  }

  /** Opening an existing category and saving it unchanged sends its own fields back to it. */
  lemma ReopenSaveRoundTrip(c: UiCategory)
    requires c.name != [] && c.slug != []
    ensures Save(OpenDialog(Some(c))) == Some(UpdateRequest(c.id, CategoryData(c.name, c.slug, c.description, c.color)))
  {
  }

  /** Renaming a category being edited keeps its slug, whatever the new name. */
  lemma RenameKeepsSlug(c: UiCategory, names: seq<string>)
    ensures var f := OpenDialog(Some(c));
      forall i :: 0 <= i < |names| ==> NameChange(f, names[i]).slug == c.slug
  {
  }

  /**
   * Typing a name into a new category's dialog sends a create whose slug matches the category slug
   * pattern, unless the name has no ASCII letter, digit, hyphen or white space at all, in which case
   * the save sends nothing.
   */
  lemma NewCategorySlugValid(value: string)
    requires value != []
    ensures var r := Save(NameChange(OpenDialog(None), value));
      && (r.None? <==> DeriveSlug(value) == [])
      && (r.Some? ==> r.value.CreateRequest? && IsCategorySlug(r.value.data.slug))
  {
  }

  /**
   * A run of white space between two words of another script (a Devanagari name such as
   * "ताज़ा खबर") derives the slug `-`, and the save sends it: every such name of a new category
   * asks for that one slug.
   */
  lemma SpacedScriptNameSlugIsHyphen(a: string, spaces: string, b: string)
    requires NoneOf(a, IsCategorySlugChar) && NoneOf(a, IsSpace) && NoneOf(a, IsAsciiUpper)
    requires NoneOf(b, IsCategorySlugChar) && NoneOf(b, IsSpace) && NoneOf(b, IsAsciiUpper)
    requires spaces != [] && All(spaces, IsSpace)
    ensures DeriveSlug(a + spaces + b) == "-"
    ensures Save(NameChange(OpenDialog(None), a + spaces + b))
      == Some(CreateRequest(CategoryData(a + spaces + b, "-", "", DefaultColor)))
  {
    var s := a + spaces + b;
    assert forall i :: 0 <= i < |s| ==> !IsAsciiUpper(s[i]) by {
      forall i | 0 <= i < |s| ensures !IsAsciiUpper(s[i]) {
        if i < |a| { assert s[i] == a[i]; }
        else if i < |a| + |spaces| { assert s[i] == spaces[i - |a|]; }
        else { assert s[i] == b[i - |a| - |spaces|]; }
      }
    }
    LowerIdentity(s);
    CollapseSpacesJoin(a, spaces, b);
    FilterAppend(IsCategorySlugChar, a + "-", b);
    FilterAppend(IsCategorySlugChar, a, "-");
    NoneFiltered(a);
    NoneFiltered(b);
    assert Filter(IsCategorySlugChar, "-") == "-";
  }

  /** Filtering a string with no slug character leaves nothing. */
  lemma NoneFiltered(a: string)
    requires NoneOf(a, IsCategorySlugChar)
    ensures Filter(IsCategorySlugChar, a) == []
  {
  }

  /** A name of white space only derives the slug `-`, which the save sends. */
  lemma BlankNameSlugIsHyphen()
    ensures DeriveSlug(" ") == "-"
    ensures Save(NameChange(OpenDialog(None), " ")) == Some(CreateRequest(CategoryData(" ", "-", "", DefaultColor)))
  {
    SpacedScriptNameSlugIsHyphen("", " ", "");
    assert "" + " " + "" == " ";
  }
}
