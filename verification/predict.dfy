/** The /predict request handler as a whole: validation, then (only on
    acceptance) storing, decoding and classifying the upload, and rendering
    of the formatted top-5. What storing, decoding and classifying yield is
    a parameter: the decoded top-5, or nothing when one of those steps
    raised. The network, the image decoding and the storage are outside
    this model. */
module Predict {
  import opened Upload
  import opened Results

  datatype Option<T> = None | Some(value: T)

  /** A redirect home carrying a flash message, the rendered result page for
      the accepted upload, or the generic server error that an uncaught
      exception from saving, decoding or classifying turns into. */
  datatype Response<Score> =
    | Redirect(flash: string)
    | Rendered(upload: string, results: seq<Entry<Score>>)
    | ServerError

  /** The handler. classified is what saving, preparing and classifying the
      accepted upload produce: Some(top5) when all three succeed, None when
      one of them raises (a file with an allowed name that is not an image,
      a failed write, a classifier error). */
  function HandlePredict<Score>(req: Request, classified: Option<seq<(string, string, Score)>>): (resp: Response<Score>)
    ensures resp.Redirect? <==> Decide(req).Reject?
    ensures resp.Redirect? ==> resp.flash in {NoFilePart, NoFileSelected, UnsupportedFileType}
    ensures resp.Rendered? <==> Decide(req).Accept? && classified.Some?
    ensures resp.ServerError? <==> Decide(req).Accept? && classified.None?
    ensures !resp.Redirect? ==> AllowedFile(req.files["image"])
    ensures resp.Rendered? ==> resp.upload == req.files["image"] && |resp.results| == |classified.value|
  {
    match Decide(req)
    case Reject(message) => Redirect(message)
    case Accept(filename) =>
      match classified
      case None => ServerError
      case Some(top5) => Rendered(filename, FormatResults(top5))
  }

  /** A rejected request never reaches storage or the classifier: its
      response is the same whatever they would have produced. */
  lemma RejectedIgnoresClassifier<Score>(req: Request, classified: Option<seq<(string, string, Score)>>,
                                         other: Option<seq<(string, string, Score)>>)
    requires !Decide(req).Accept?
    ensures HandlePredict(req, classified) == HandlePredict(req, other)
    ensures HandlePredict(req, classified) == Redirect(Decide(req).message)
  {
  }

  /** Results are shown exactly when the request has an image part with a
      non-empty, allowed name and the later steps succeed; then every
      decoded triple is shown in order with its id and score unchanged. */
  lemma RenderedExactly<Score>(req: Request, classified: Option<seq<(string, string, Score)>>)
    ensures HandlePredict(req, classified).Rendered? <==>
      && "image" in req.files && req.files["image"] != "" && AllowedFile(req.files["image"])
      && classified.Some?
    ensures HandlePredict(req, classified).Rendered? ==>
      var top5, shown := classified.value, HandlePredict(req, classified).results;
      forall i :: 0 <= i < |top5| ==>
        shown[i].id == top5[i].0 && shown[i].score == top5[i].2 && shown[i].name == FormatLabel(top5[i].1)
  {
  }
}
