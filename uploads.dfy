/**
 * The checks the upload controllers make on the multipart file they receive,
 * which arrives as an untyped value.
 */
module Uploads {
  import opened Wrappers

  /** The `originalname` property: missing, a string, or some other value. */
  datatype NameProperty = NoName | NameText(text: string) | NameOther

  /**
   * The uploaded value: nothing (undefined, null or another falsy value), a
   * truthy value that is not an object, or an object. `hasBuffer` says that
   * its `buffer` property is a Buffer.
   */
  datatype UploadValue =
    | Nothing
    | Primitive
    | Record(hasBuffer: bool, mimetype: Option<string>, originalname: NameProperty)

  /** Where the object store put an upload. */
  datatype BlobLocation = BlobLocation(bucketName: string, bucketRegion: string, bucketKey: string)

  /** JavaScript truthiness of an optional string: given and not empty. */
  predicate TruthyString(s: Option<string>) {
    s.Some? && s.value != ""
  }

  /** `isValidUploadFile`: an object whose `buffer` is a Buffer and whose `originalname` is a string. */
  predicate IsValidUploadFile(f: UploadValue)
    ensures IsValidUploadFile(f) ==> IsMarkdown(f).Returned?
  {
    f.Record? && f.hasBuffer && f.originalname.NameText?
  }

  function LowerChar(c: char): char {
    if 'A' <= c <= 'Z' then (c as int + 32) as char else c
  }

  /** `toLowerCase` on the ASCII letters. */
  function Lower(s: string): (r: string)
    ensures |r| == |s|
    ensures forall i :: 0 <= i < |s| ==> r[i] == LowerChar(s[i])
  {
    if s == [] then [] else [LowerChar(s[0])] + Lower(s[1..])
  }

  predicate EndsWith(s: string, suffix: string) {
    |suffix| <= |s| && s[|s| - |suffix|..] == suffix
  }

  /**
   * The markdown test, worked out before any other check: a falsy value is
   * not markdown; an object whose mimetype is `text/markdown` is; otherwise
   * the lower-cased `originalname` must end with `.md`, and reading it throws
   * when it is not a string.
   */
  function IsMarkdown(f: UploadValue): (r: Outcome<bool>)
    ensures f.Nothing? ==> r == Returned(false)
    ensures r == Returned(true) <==>
      f.Record? && (f.mimetype == Some("text/markdown") || (f.originalname.NameText? && EndsWith(Lower(f.originalname.text), ".md")))
  {
    match f
    case Nothing => Returned(false)
    case Primitive => Threw
    case Record(_, mimetype, name) =>
      if mimetype == Some("text/markdown") then Returned(true)
      else if name.NameText? then Returned(EndsWith(Lower(name.text), ".md"))
      else Threw
  }

  /** The markdown test never throws on a value that passes `isValidUploadFile`. */
  lemma ValidUploadsDoNotThrow(f: UploadValue)
    requires IsValidUploadFile(f)
    ensures IsMarkdown(f).Returned?
  {
  }

  /** The markdown test throws exactly for a truthy value with no string name that the mimetype does not settle. */
  lemma MarkdownThrowsExactly(f: UploadValue)
    ensures IsMarkdown(f).Threw? <==>
      f != Nothing && !(f.Record? && (f.mimetype == Some("text/markdown") || f.originalname.NameText?))
  {
  }

  /** A name whose extension is `.md` in any mix of cases is markdown. */
  lemma {:induction false} MarkdownExtensionAnyCase(stem: string, ext: string, hasBuffer: bool, mimetype: Option<string>)
    requires Lower(ext) == ".md"
    ensures IsMarkdown(Record(hasBuffer, mimetype, NameText(stem + ext))) == Returned(true)
  {
    var s := stem + ext;
    var l := Lower(s);
    assert |ext| == 3;
    assert l[|l| - 3..] == Lower(ext) by {
      forall i | 0 <= i < 3 ensures l[|l| - 3 + i] == Lower(ext)[i] {
        assert s[|stem| + i] == ext[i];
      }
    }
  }
}
