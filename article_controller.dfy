/**
 * The article upload endpoint of the older server: a markdown file is sent
 * to the object store and its location, with the title, is handed to the
 * (uncached) article service.
 */
module ArticleUpload {
  import opened Wrappers
  import opened Uploads

  /** What the article service is asked to create: the stored file's location and the title. */
  datatype UploadedArticle = UploadedArticle(at: BlobLocation, articleTitle: string)

  class ArticleController {
    /** How many files have been sent to the object store. */
    var fileUploads: nat

    /** The create requests handed to the article service, in order. */
    var creates: seq<UploadedArticle>

    constructor ()
      ensures fileUploads == 0 && creates == []
    {
      fileUploads := 0;
      creates := [];
    }

    /**
     * `createArticle`: the markdown test is worked out first and may throw;
     * then 400 for an invalid file, 415 for a file that is not markdown, 400
     * without a title, 500 when the upload answers nothing, and otherwise the
     * title is set on the upload's answer, which is created, and 201.
     */
    method CreateArticle(file: UploadValue, title: Option<string>, uploaded: Option<BlobLocation>)
      returns (code: Outcome<int>)
      modifies this
      ensures code.Threw? <==> IsMarkdown(file).Threw?
      ensures code == Returned(201) <==>
        IsValidUploadFile(file) && IsMarkdown(file) == Returned(true) && TruthyString(title) && uploaded.Some?
      ensures code == Returned(201) ==> creates == old(creates) + [UploadedArticle(uploaded.value, title.value)]
      ensures code != Returned(201) ==> creates == old(creates)
      ensures fileUploads == old(fileUploads) + (if code == Returned(201) || code == Returned(500) then 1 else 0)
      ensures code.Returned? && !IsValidUploadFile(file) ==> code.value == 400
      ensures IsValidUploadFile(file) && IsMarkdown(file) == Returned(false) ==> code == Returned(415)
      ensures IsValidUploadFile(file) && IsMarkdown(file) == Returned(true) && !TruthyString(title) ==> code == Returned(400)
      ensures IsValidUploadFile(file) && IsMarkdown(file) == Returned(true) && TruthyString(title) && uploaded.None? ==>
        code == Returned(500)
    {
      var isMarkdown := IsMarkdown(file);
      if isMarkdown.Threw? {
        return Threw;
      }
      if !IsValidUploadFile(file) {
        return Returned(400);
      }
      if !isMarkdown.value {
        return Returned(415);
      }
      if !TruthyString(title) {
        return Returned(400);
      }
      fileUploads := fileUploads + 1;
      if uploaded.None? {
        return Returned(500);
      }
      creates := creates + [UploadedArticle(uploaded.value, title.value)];
      code := Returned(201);
    }
  }
}
