/** The validation schema of the new-task dialog and the submission gate
    Formik puts in front of it. */
module TaskForm {
  import opened Wrappers
  import Gps
  import ImageStore
  import TaskController

  /** The values the dialog hands to the schema. Formik turns an empty text
      input into `undefined` before validating, so an empty string here is
      an absent field. The image is the picked file, if any. */
  datatype Values = Values(
    name: string,
    description: string,
    image: Option<ImageStore.Upload>,
    completed: bool,
    gps: string)

  /** The size test on the image, in bytes. */
  const MaxImageBytes: nat := 5000000
  /** The format test on the image: the accepted MIME types. */
  const ImageTypes: seq<string> := ["image/jpeg", "image/png", "image/gif"]

  const NameRequired := "Task name is required"
  const DescriptionRequired := "Description is required"
  const FileTooLarge := "File too large"
  const UnsupportedFormat := "Unsupported format"
  const BadCoordinates := "Must be valid GPS coordinates"

  datatype Field = Name | Description | Image | Coordinates

  /** What each field must satisfy, stated field by field. */
  predicate ImageOk(image: Option<ImageStore.Upload>)
  {
    image.Some? ==> image.value.sizeBytes <= MaxImageBytes && image.value.mimeType in ImageTypes
  }

  predicate CoordinatesOk(gps: string)
  {
    gps == "" || Gps.GpsPattern(gps)
  }

  predicate Acceptable(v: Values)
  {
    && v.name != ""
    && v.description != ""
    && ImageOk(v.image)
    && CoordinatesOk(v.gps)
  }

  /** The error message of the image field: the size test runs before the
      format test, and the first failure is the one shown. */
  function ImageError(image: Option<ImageStore.Upload>): (r: Option<string>)
    ensures r.None? <==> ImageOk(image)
    ensures r == Some(FileTooLarge) <==> image.Some? && image.value.sizeBytes > MaxImageBytes
    ensures r == Some(UnsupportedFormat) <==>
      image.Some? && image.value.sizeBytes <= MaxImageBytes && image.value.mimeType !in ImageTypes
  {
    match image
    case None => None
    case Some(f) =>
      if f.sizeBytes > MaxImageBytes then Some(FileTooLarge)
      else if f.mimeType !in ImageTypes then Some(UnsupportedFormat)
      else None
  }

  /** Formik's errors object for the dialog: one message per failing field,
      the coordinates checked by the scanner rather than the pattern. */
  function Errors(v: Values): (r: map<Field, string>)
    ensures Name in r <==> v.name == ""
    ensures Description in r <==> v.description == ""
    ensures Image in r <==> !ImageOk(v.image)
    ensures Coordinates in r <==> !CoordinatesOk(v.gps)
    ensures Name in r ==> r[Name] == NameRequired
    ensures Description in r ==> r[Description] == DescriptionRequired
    ensures Coordinates in r ==> r[Coordinates] == BadCoordinates
    ensures Image in r ==> Some(r[Image]) == ImageError(v.image)
  {
    Gps.MatchGpsCorrect(v.gps);
    var e1 := if v.name == "" then map[Name := NameRequired] else map[];
    var e2 := if v.description == "" then e1[Description := DescriptionRequired] else e1;
    var e3 := match ImageError(v.image) case None => e2 case Some(m) => e2[Image := m];
    if v.gps != "" && !Gps.MatchGps(v.gps) then e3[Coordinates := BadCoordinates] else e3
  }

  /** Formik calls the submit handler only when the errors object is empty. */
  function Submit(v: Values): (r: Option<Values>)
    ensures r.Some? ==> r.value == v
  {
    if Errors(v) == map[] then Some(v) else None
  }

  /** The dialog submits exactly the acceptable values. */
  lemma SubmitAcceptsExactly(v: Values)
    ensures Submit(v).Some? <==> Acceptable(v)
  {
    if !Acceptable(v) {
      var e := Errors(v);
      if v.name == "" {
        assert Name in e;
      } else if v.description == "" {
        assert Description in e;
      } else if !ImageOk(v.image) {
        assert Image in e;
      } else {
        assert Coordinates in e;
      }
    }
  }

  /** The request the server receives from an acceptable dialog carries its
      name and image. An image the dialog accepts is always within the
      server's size limit, so such a request passes the server's rules
      exactly when the name is at most 255 characters and not blank: the
      dialog sets no upper bound on the name and accepts white space. */
  lemma AcceptedMeetsServerRules(v: Values, description: Option<string>, completed: Option<bool>, gps: Option<string>)
    requires Acceptable(v)
    ensures TaskController.PassesValidation(TaskController.StoreRequest(Some(v.name), description, v.image, completed, gps))
      <==> |v.name| <= TaskController.MaxNameLength && !TaskController.Blank(v.name)
  {
  }

  /** A name of spaces only: the dialog accepts it, and the server refuses
      it whatever else the request carries. */
  lemma BlankNameGap()
    ensures exists v ::
      Acceptable(v) && |v.name| <= TaskController.MaxNameLength && TaskController.Blank(v.name)
  {
    var v := Values("   ", "d", None, false, "");
    assert Acceptable(v);
  }

  /** A name the dialog lets through and the server refuses. */
  lemma LongNameGap()
    ensures exists v :: Acceptable(v) && |v.name| > TaskController.MaxNameLength
  {
    var long := seq(256, _ => 'a');
    var v := Values(long, "d", None, false, "");
    assert Acceptable(v);
  }

  /** An example that the coordinates field accepts, with white space after
      the comma, and one it refuses. */
  lemma CoordinatesExamples()
    ensures CoordinatesOk("-1.5, 36.8")
    ensures !CoordinatesOk("abc")
  {
    var s := "-1.5, 36.8";
    assert Gps.Unsigned("1.5") by {
      assert "1.5"[..1] == "1" && "1.5"[2..] == "5";
    }
    assert Gps.Unsigned("36.8") by {
      assert "36.8"[..2] == "36" && "36.8"[3..] == "8";
    }
    assert Gps.Number(s[..4]) by {
      assert s[..4] == "-1.5" && "-1.5"[1..] == "1.5";
    }
    assert Gps.Number(s[6..]) by {
      assert s[6..] == "36.8";
    }
    assert Gps.Spaces(s[5..6]);
    assert s[4] == ',';
    assert Gps.SplitAt(s, 4, 6);
    assert forall i :: 0 <= i < 3 ==> "abc"[i] != ',';
  }
}
