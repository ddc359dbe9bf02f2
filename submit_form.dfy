/**
 * The submission form, written twice in the source with the same logic
 * (`src/app/submit/page.tsx` and
 * `src/components/forms/NewsletterSubmissionForm.tsx`): the tag editor, the
 * client-side schema, and what a submit sends and does with the answer.
 * URL and e-mail validity are the `isUrl` and `isEmail` parameters.
 */
module SubmitForm {
  import opened Js
  import opened Text
  import SubmitRoute
  import Supabase

  const DefaultSubmitError := "Failed to submit newsletter"
  const UnexpectedError := "An unexpected error occurred"

  /** The form fields other than `tags`, as the form library holds them. */
  datatype FormFields = FormFields(
    title: string,
    url: string,
    description: string,
    category: string,
    email: string,
    honeypot: string)

  /** How the POST came back. */
  datatype ServerAnswer =
    | Answered(ok: bool, error: Option<string>) // `response.ok`, and the `error` field of the JSON body
    | Threw(message: string)                    // `fetch` or `json()` threw an `Error`
    | ThrewOther                                // something that is not an `Error` was thrown

  // ---------------------------------------------------------------------------
  // The tag list

  /** The tag editor's invariant on its list: no tag twice, none blank, none with whitespace at either end. */
  predicate CleanTags(tags: seq<string>) {
    NoDuplicates(tags) && forall i :: 0 <= i < |tags| ==> tags[i] != "" && IsTrimmed(tags[i])
  }

  /** `handleAddTag` on the list: the trimmed input is appended unless it is blank or already there. */
  function AddedTags(tags: seq<string>, input: string): (r: seq<string>)
    ensures r == tags || r == tags + [Trim(input)]
    ensures r != tags <==> Trim(input) != "" && Trim(input) !in tags
  {
    var t := Trim(input);
    if t == "" || t in tags then tags else tags + [t]
  }

  /** A blank input adds nothing; a new tag goes at the end; a tag already listed is not added again. */
  lemma AddedTagsCases(tags: seq<string>, input: string)
    ensures Trim(input) == "" ==> AddedTags(tags, input) == tags
    ensures Trim(input) != "" && Trim(input) !in tags ==> AddedTags(tags, input) == tags + [Trim(input)]
    ensures Trim(input) in tags ==> AddedTags(tags, input) == tags
    ensures forall x :: x in AddedTags(tags, input) <==> x in tags || (x == Trim(input) && x != "")
  {
  }

  /** Adding keeps the list clean. */
  lemma AddedTagsStayClean(tags: seq<string>, input: string)
    requires CleanTags(tags)
    ensures CleanTags(AddedTags(tags, input))
  {
    TrimIsInnerPiece(input);
    var r := AddedTags(tags, input);
    if r != tags {
      forall i, j | 0 <= i < j < |r| ensures r[i] != r[j] {
        if j == |tags| {
          assert r[i] == tags[i];
        }
      }
    }
  }

  /** `tags.filter(tag => tag !== t)`. */
  function Without(tags: seq<string>, t: string): (r: seq<string>)
    ensures |r| <= |tags|
    ensures forall x :: x in r <==> x in tags && x != t
  {
    if tags == [] then []
    else (if tags[0] == t then [] else [tags[0]]) + Without(tags[1..], t)
  }

  /** Removing a tag that is not listed changes nothing. */
  lemma {:induction false} WithoutAbsent(tags: seq<string>, t: string)
    requires t !in tags
    ensures Without(tags, t) == tags
  {
    if tags != [] {
      WithoutAbsent(tags[1..], t);
    }
  }

  /** Removing the tag at position `k` of a list without duplicates leaves the others in their order. */
  lemma {:induction false} WithoutAt(tags: seq<string>, k: nat)
    requires NoDuplicates(tags) && k < |tags|
    ensures Without(tags, tags[k]) == tags[..k] + tags[k + 1..]
  {
    if k == 0 {
      assert tags[k] !in tags[1..];
      WithoutAbsent(tags[1..], tags[k]);
    } else {
      WithoutAt(tags[1..], k - 1);
      assert tags[1..][k - 1] == tags[k];
      assert tags[1..][..k - 1] + tags[1..][k..] == tags[1..k] + tags[k + 1..];
      assert tags[..k] == [tags[0]] + tags[1..k];
    }
  }

  /** Removing keeps the list clean. */
  lemma {:induction false} WithoutStaysClean(tags: seq<string>, t: string)
    requires CleanTags(tags)
    ensures CleanTags(Without(tags, t))
  {
    if tags != [] {
      WithoutStaysClean(tags[1..], t);
      var rest := Without(tags[1..], t);
      assert tags[0] !in tags[1..];
      assert tags[0] !in rest;
    }
  }

  /** For a clean list, the joined form value is non-empty exactly when there is a tag: the schema's `min(1)` on `tags` asks for at least one. */
  lemma JoinedTagsNonEmpty(tags: seq<string>)
    requires CleanTags(tags)
    ensures |Join(tags, ",")| >= 1 <==> tags != []
  {
    if |tags| >= 2 {
      assert Join(tags, ",") == tags[0] + "," + Join(tags[1..], ",");
    }
  }

  // ---------------------------------------------------------------------------
  // The schema and the request

  /** `formSchema`: title 1..100, a URL, description 10..300, a category, some tags, and an e-mail that is empty or valid. */
  predicate SchemaAccepts(f: FormFields, tags: string, isUrl: string -> bool, isEmail: string -> bool): (ok: bool)
    ensures ok ==> |f.description| <= SubmitRoute.MaxDescription && isUrl(f.url)
    ensures ok ==> f.title != "" && f.url != "" && f.category != "" && tags != ""
  {
    && 1 <= |f.title| <= 100
    && isUrl(f.url) && |f.url| >= 1
    && 10 <= |f.description| <= 300
    && |f.category| >= 1
    && |tags| >= 1
    && (f.email == "" || isEmail(f.email))
  }

  /** The JSON body `onSubmit` posts: the form fields, with `tags` replaced by the list joined with `,`. */
  function RequestBody(f: FormFields, tags: seq<string>): (b: SubmitRoute.Body)
    ensures b.tags == Str(Join(tags, ","))
    ensures b.title == Some(f.title) && b.url == Some(f.url) && b.description == Some(f.description)
    ensures b.category == Some(f.category) && b.email == Some(f.email) && b.honeypot == Str(f.honeypot)
  {
    SubmitRoute.Body(Some(f.title), Some(f.url), Some(f.description), Some(f.category),
                     Str(Join(tags, ",")), Some(f.email), Str(f.honeypot))
  }

  /**
   * A form the schema accepts, with its honeypot empty, passes every check of
   * the endpoint's validation chain when the endpoint's URL parser agrees
   * with the schema's.
   */
  lemma SchemaAcceptedPassesServer(f: FormFields, tags: seq<string>, isUrl: string -> bool, isEmail: string -> bool)
    requires SchemaAccepts(f, Join(tags, ","), isUrl, isEmail) && f.honeypot == ""
    ensures var v := SubmitRoute.Validate(RequestBody(f, tags), isUrl);
      && v.Accept?
      && v.submission == Supabase.Submission(f.title, f.url, f.description, f.category, Str(Join(tags, ",")), Some(f.email))
  {
    var b := RequestBody(f, tags);
    assert SubmitRoute.AllPresent(b);
    SubmitRoute.DescriptionLengthBoundary(b, isUrl);
  }

  /** The endpoint has no lower bound on the description: one the schema refuses as too short is accepted. */
  lemma ServerAcceptsShortDescription()
    ensures var f := FormFields("Weekly", "https://example.com", "short", "Tech", "", "");
      && !SchemaAccepts(f, "go", _ => true, _ => true)
      && SubmitRoute.Validate(RequestBody(f, ["go"]), _ => true).Accept?
  {
    var f := FormFields("Weekly", "https://example.com", "short", "Tech", "", "");
    assert |f.description| == 5;
    SchemaAcceptedPassesServer(FormFields("Weekly", "https://example.com", "a longer one", "Tech", "", ""),
                               ["go"], _ => true, _ => true);
    SubmitRoute.DescriptionLengthBoundary(RequestBody(f, ["go"]), _ => true);
  }

  /**
   * The tags the store records for a submission from this form are the
   * editor's list, as long as no tag holds a comma: the join on the client
   * and the split, trim and drop-empty on the server undo each other.
   */
  lemma TagsSurviveSubmission(f: FormFields, tags: seq<string>)
    requires CleanTags(tags) && forall i :: 0 <= i < |tags| ==> ',' !in tags[i]
    ensures Supabase.NormaliseTags(RequestBody(f, tags).tags) == tags
  {
    Supabase.NormaliseJoinRoundTrip(tags);
  }

  /**
   * A tag pasted with a comma in it, `a,b`, is a clean tag to the editor, but
   * the store records it as the two tags `a` and `b`.
   */
  lemma PastedCommaSplitsTag(f: FormFields, a: string, b: string)
    requires a != "" && IsTrimmed(a) && ',' !in a
    requires b != "" && IsTrimmed(b) && ',' !in b
    ensures CleanTags([a + "," + b])
    ensures Supabase.NormaliseTags(RequestBody(f, [a + "," + b]).tags) == [a, b]
  {
    PastedTagIsClean(a, b);
    var pieces := [a, b];
    assert Join(pieces, ",") == a + "," + b by {
      assert pieces[1..] == [b];
    }
    Supabase.NormaliseJoinRoundTrip(pieces);
  }

  /** Two trimmed non-empty texts joined by a comma make one clean tag. */
  lemma PastedTagIsClean(a: string, b: string)
    requires a != "" && IsTrimmed(a)
    requires b != "" && IsTrimmed(b)
    ensures CleanTags([a + "," + b])
  {
    var pasted := a + "," + b;
    assert pasted[0] == a[0] && pasted[|pasted| - 1] == b[|b| - 1];
  }


  // ---------------------------------------------------------------------------
  // The component's state

  /** The form's React state: the tag list, the tag input box, the form's `tags` value and the outcome flags. */
  class SubmissionForm {
    var tags: seq<string>
    var tagInput: string
    var formTags: string
    var isSuccess: bool
    var submissionError: Option<string>

    /** The list is clean and the form's `tags` value is always the list joined with `,`. */
    ghost predicate Valid()
      reads this
    {
      CleanTags(tags) && formTags == Join(tags, ",")
    }

    constructor ()
      ensures Valid()
      ensures tags == [] && tagInput == "" && formTags == "" && !isSuccess && submissionError == None
    {
      tags := [];
      tagInput := "";
      formTags := "";
      isSuccess := false;
      submissionError := None;
    }

    /** The tag input box's `onChange`. */
    method SetTagInput(text: string)
      modifies this
      ensures tagInput == text
      ensures tags == old(tags) && formTags == old(formTags)
      ensures isSuccess == old(isSuccess) && submissionError == old(submissionError)
    {
      tagInput := text;
    }

    /** `handleAddTag`: add the trimmed input unless blank or present, and clear the box unless blank. */
    method HandleAddTag()
      requires Valid()
      modifies this`tags, this`tagInput, this`formTags
      ensures Valid()
      ensures tags == AddedTags(old(tags), old(tagInput))
      ensures tagInput == if Trim(old(tagInput)) == "" then old(tagInput) else ""
    {
      var newTag := Trim(tagInput);
      if newTag != "" {
        ghost var added := AddedTags(tags, tagInput);
        AddedTagsStayClean(tags, tagInput);
        if newTag !in tags {
          tags := tags + [newTag];
          formTags := Join(tags, ",");
        }
        assert tags == added;
        tagInput := "";
      }
    }

    /** `handleRemoveTag`: drop the tag from the list and from the form value. */
    method HandleRemoveTag(tagToRemove: string)
      requires Valid()
      modifies this
      ensures Valid()
      ensures tags == Without(old(tags), tagToRemove)
      ensures tagInput == old(tagInput)
      ensures isSuccess == old(isSuccess) && submissionError == old(submissionError)
    {
      WithoutStaysClean(tags, tagToRemove);
      tags := Without(tags, tagToRemove);
      formTags := Join(tags, ",");
    }

    /** `handleTagKeyPress`: Enter and `,` add the tag; any other key does nothing here. */
    method HandleTagKeyPress(key: string)
      requires Valid()
      modifies this
      ensures Valid()
      ensures key == "Enter" || key == "," ==>
        && tags == AddedTags(old(tags), old(tagInput))
        && tagInput == (if Trim(old(tagInput)) == "" then old(tagInput) else "")
      ensures key != "Enter" && key != "," ==> tags == old(tags) && tagInput == old(tagInput)
      ensures formTags == Join(tags, ",")
      ensures isSuccess == old(isSuccess) && submissionError == old(submissionError)
    {
      if key == "Enter" || key == "," {
        HandleAddTag();
      }
    }

    /**
     * Submitting: the form library runs `onSubmit` only when the schema
     * accepts the fields and the form's `tags` value. `onSubmit` posts the
     * fields with the joined list and, on success, sets the success flag
     * and empties the list and the form value; on failure it records the
     * server's error message, or the default one.
     */
    method OnSubmit(f: FormFields, isUrl: string -> bool, isEmail: string -> bool, answer: ServerAnswer)
      returns (sent: Option<SubmitRoute.Body>)
      requires Valid()
      modifies this
      ensures Valid()
      ensures sent.Some? <==> SchemaAccepts(f, old(formTags), isUrl, isEmail)
      ensures sent.None? ==>
        && tags == old(tags) && formTags == old(formTags)
        && isSuccess == old(isSuccess) && submissionError == old(submissionError)
      ensures sent.Some? ==> sent.value == RequestBody(f, old(tags))
      ensures sent.Some? && answer.Answered? && answer.ok ==>
        isSuccess && tags == [] && formTags == "" && submissionError == None
      ensures sent.Some? && answer.Answered? && !answer.ok ==>
        && submissionError == Some(OrElse(answer.error, DefaultSubmitError))
        && tags == old(tags) && formTags == old(formTags) && isSuccess == old(isSuccess)
      ensures sent.Some? && answer.Threw? ==>
        && submissionError == Some(answer.message)
        && tags == old(tags) && formTags == old(formTags) && isSuccess == old(isSuccess)
      ensures sent.Some? && answer.ThrewOther? ==>
        && submissionError == Some(UnexpectedError)
        && tags == old(tags) && formTags == old(formTags) && isSuccess == old(isSuccess)
      ensures tagInput == old(tagInput)
    {
      if !SchemaAccepts(f, formTags, isUrl, isEmail) {
        return None;
      }
      submissionError := None;
      sent := Some(RequestBody(f, tags));
      match answer
      case Answered(ok, error) =>
        if ok {
          isSuccess := true;
          formTags := "";
          tags := [];
        } else {
          submissionError := Some(OrElse(error, DefaultSubmitError));
        }
      case Threw(message) =>
        submissionError := Some(message);
      case ThrewOther =>
        submissionError := Some(UnexpectedError);
    }

    /** The Submit Another button: back to the form. */
    method SubmitAnother()
      modifies this
      ensures !isSuccess
      ensures tags == old(tags) && tagInput == old(tagInput) && formTags == old(formTags)
      ensures submissionError == old(submissionError)
    {
      isSuccess := false;
    }
  }
}
