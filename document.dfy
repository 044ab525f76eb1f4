/**
 * The data the crawler works on: the parsed page (a sequence of elements with
 * their attributes, as the HTML parser hands them over), and one candidate row of
 * the `urls` table (`website, ref, url, source, size`).
 */
module Document {
  import opened Wrappers
  import opened Strings

  /** The attributes of one tag, as raw strings. */
  type Attrs = map<string, string>

  /**
   * One element of the parsed page. `firstImg` is the first `<img>` found
   * beneath the element (`tag.find("img")`), which only anchors consult.
   */
  datatype Element = Element(name: string, attrs: Attrs, firstImg: Option<Attrs>)

  /** What the browser returned: the page title as reported and the parsed document, in document order. */
  datatype Page = Page(title: string, doc: seq<Element>)

  /** `tag.get(key)` */
  function Get(attrs: Attrs, key: string): Option<string> {
    if key in attrs then Some(attrs[key]) else None
  }

  /** Python truthiness of an optional string: present and non-empty. */
  predicate Truthy(v: Option<string>) {
    v.Some? && v.value != ""
  }

  /** Which collector produced a row; `Name` is the text stored in the `source` column. */
  datatype Source = Img | AnchorImg | Link {
    function Name(): string {
      match this
      case Img => "<img>"
      case AnchorImg => "<a> <img>"
      case Link => "<link>"
    }
  }

  /** One candidate: a row of the `urls` table before scoring. */
  datatype Row = Row(website: string, ref: Option<string>, url: string, source: Source, size: int)

  /** The column pair `drop_duplicates` compares. */
  function Key(r: Row): (Option<string>, string) {
    (r.ref, r.url)
  }

  /** `self.formats`: the image file extensions. */
  const Formats: seq<string> := [".jpg", ".jpeg", ".png", ".gif", ".bmp", ".svg", ".webp"]

  /** `self.formats + ("<svg", "data:")`: the markers of an image reference. */
  const Markers: seq<string> := Formats + ["<svg", "data:"]

  /** `s.endswith(self.formats)` */
  predicate EndsWithFormat(s: string) {
    exists f :: f in Formats && HasSuffix(s, f)
  }

  /** `any(file_format in s for file_format in file_formats)` */
  predicate HasMarker(s: string) {
    exists f :: f in Markers && Contains(s, f)
  }

  /** A URL ending in an image extension carries a marker. */
  lemma FormatIsMarker(s: string)
    requires EndsWithFormat(s)
    ensures HasMarker(s)
  {
    var f :| f in Formats && HasSuffix(s, f);
    SuffixIsContained(s, f);
    assert f in Markers;
  }
}
