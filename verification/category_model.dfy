/**
 * The Category document: name, slug, description, colour and the denormalised count of its
 * published articles, with the setters and validators of its schema.
 */
module CategoryModel {
  import opened Wrappers
  import opened Seqs
  import opened Text

  datatype Category = Category(
    name: string,
    slug: string,
    description: Option<string>,
    color: string,
    articleCount: int)

  /** The characters of the slug pattern `^[a-z0-9-]+$`. */
  predicate IsCategorySlugChar(c: char) {
    IsAsciiLower(c) || IsDigit(c) || c == '-'
  }

  /** The slug pattern `^[a-z0-9-]+$`. */
  predicate IsCategorySlug(s: string) {
    s != [] && All(s, IsCategorySlugChar)
  }

  /** The colour pattern `^#([A-Fa-f0-9]{6}|[A-Fa-f0-9]{3})$`. */
  predicate IsHexColor(s: string) {
    (|s| == 4 || |s| == 7) && s[0] == '#' && All(s[1..], IsHexDigit)
  }

  /** A colour is exactly `#` followed by three or six hexadecimal digits. */
  lemma HexColorShape(s: string)
    ensures IsHexColor(s) <==>
      exists digits :: |digits| in {3, 6} && All(digits, IsHexDigit) && s == "#" + digits
  {
    if IsHexColor(s) {
      assert s == "#" + s[1..];
    }
  }

  /**
   * The error a path's validators report: a string path keeps only the first failing validator,
   * and `match` accepts the empty string (it is left to `required`).
   */
  function NameViolations(name: string): (r: seq<string>)
    ensures r == [] <==> name != "" && Units(name) <= 100
    ensures |r| <= 1
  {
    if name == "" then ["Category name is required"]
    else if Units(name) > 100 then ["Name cannot exceed 100 characters"]
    else []
  }

  function SlugViolations(slug: string): (r: seq<string>)
    ensures r == [] <==> IsCategorySlug(slug)
    ensures |r| <= 1
  {
    if slug == "" then ["Slug is required"]
    else if !All(slug, IsCategorySlugChar) then ["Slug can only contain lowercase letters, numbers, and hyphens"]
    else []
  }

  function DescriptionViolations(description: Option<string>): (r: seq<string>)
    ensures r == [] <==> (description.Some? ==> Units(description.value) <= 500)
    ensures |r| <= 1
  {
    if description.Some? && Units(description.value) > 500 then ["Description cannot exceed 500 characters"] else []
  }

  function ColorViolations(color: string): (r: seq<string>)
    ensures r == [] <==> IsHexColor(color)
    ensures |r| <= 1
  {
    if color == "" then ["Color is required"]
    else if !IsHexColor(color) then ["Please enter a valid hex color"]
    else []
  }

  /** The schema's setters: the name is trimmed; the slug lower-cased and trimmed. */
  function ApplySetters(c: Category): (r: Category)
    ensures Trimmed(r.name) && Trimmed(r.slug)
    ensures forall i :: 0 <= i < |r.slug| ==> !IsAsciiUpper(r.slug[i])
    ensures r.(name := c.name, slug := c.slug) == c
  {
    var l := Lower(c.slug);
    var slug := Trim(l);
    forall i | 0 <= i < |slug| ensures !IsAsciiUpper(slug[i]) {
      var j :| 0 <= j < |l| && l[j] == slug[i];
    }
    c.(name := Trim(c.name), slug := slug)
  }

  /** One message per failing path. */
  function Violations(c: Category): (r: seq<string>)
    ensures r == [] <==> Valid(c)
    ensures |r| <= 4
  {
    NameViolations(c.name) + SlugViolations(c.slug) + DescriptionViolations(c.description) + ColorViolations(c.color)
  }

  /** The schema bounds on a stored category. */
  predicate Valid(c: Category) {
    && c.name != "" && Units(c.name) <= 100
    && IsCategorySlug(c.slug)
    && (c.description.Some? ==> Units(c.description.value) <= 500)
    && IsHexColor(c.color)
  }

  /** A category as the collection holds it: the setters applied and the validators passed. */
  predicate WellFormed(c: Category) {
    Trimmed(c.name) && Valid(c)
  }

  /**
   * A new category document: the setters applied and `articleCount` at its default of 0, or the
   * messages of the failing validators.
   */
  function NewCategory(name: string, slug: string, description: Option<string>, color: string): (r: Result<Category, seq<string>>)
    ensures r.Ok? ==> WellFormed(r.value) && r.value.articleCount == 0
    ensures r.Ok? ==> r.value.name == Trim(name) && r.value.slug == Trim(Lower(slug))
    ensures r.Ok? ==> r.value.color == color && r.value.description == description
    ensures r.Err? ==> r.error != [] && r.error == Violations(ApplySetters(Category(name, slug, description, color, 0)))
  {
    var c := ApplySetters(Category(name, slug, description, color, 0));
    var errors := Violations(c);
    if errors == [] then Ok(c) else Err(errors)
  }
}
