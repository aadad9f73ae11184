/**
 * database/schema.ts: the shapes of the `upvotes` and `comments` rows, and
 * the two request validators `UpvoteSchema` and `CommentSchema`.
 */
module Schema {
  import opened Wrappers

  /** A row of the `upvotes` table (`createdAt` is left out). `id` is the primary key. */
  datatype Upvote = Upvote(id: string, projectName: string, userId: string)

  /** A row of the `comments` table (the timestamps are left out); only `userAvatar` may be null. */
  datatype Comment = Comment(
    id: string, projectName: string, userId: string,
    userName: string, userAvatar: Option<string>, content: string)

  /** A parsed JSON request body. */
  datatype Json =
    | JNull
    | JBool(b: bool)
    | JNumber(n: int)
    | JString(s: string)
    | JArray(items: seq<Json>)
    | JObject(fields: map<string, Json>)

  /** One problem the validator reports; `path` is the field name, or "" for the body itself. */
  datatype Issue =
    | InvalidType(path: string)
    | TooSmall(path: string, minimum: nat, message: string)
    | TooBig(path: string, maximum: nat, message: string)

  const ProjectNameRequired: string := "Project Name is required"
  const CommentEmpty: string := "Comment cannot be empty"
  const CommentTooLong: string := "Comment is too long"
  const NameRequired: string := "Name is required"
  const MaxCommentLength: nat := 500

  /**
   * The length JavaScript reports for a string: UTF-16 code units, so a
   * character outside the Basic Multilingual Plane counts twice.
   */
  function Utf16Length(s: string): (n: nat)
    ensures |s| <= n <= 2 * |s|
    ensures |s| == 1 ==> n == (if s[0] as int > 0xFFFF then 2 else 1)
  {
    if s == [] then 0
    else (if s[0] as int > 0xFFFF then 2 else 1) + Utf16Length(s[1..])
  }

  /**
   * The checks of one string field: it must be present and a string, at
   * least `minimum` long and, when a maximum is given, at most that long.
   * Every failing length check is reported.
   */
  function StringFieldIssues(
    fields: map<string, Json>, key: string,
    minimum: nat, minMessage: string,
    maximum: Option<nat>, maxMessage: string): (issues: seq<Issue>)
    ensures issues == [] <==>
              && key in fields && fields[key].JString?
              && minimum <= Utf16Length(fields[key].s)
              && (maximum.Some? ==> Utf16Length(fields[key].s) <= maximum.value)
  {
    if key !in fields || !fields[key].JString? then [InvalidType(key)]
    else
      var n := Utf16Length(fields[key].s);
      (if n < minimum then [TooSmall(key, minimum, minMessage)] else [])
      + (if maximum.Some? && n > maximum.value then [TooBig(key, maximum.value, maxMessage)] else [])
  }

  /** The validated body of an upvote request. */
  datatype UpvoteRequest = UpvoteRequest(projectName: string)

  /** `UpvoteSchema.safeParse(body)`. */
  function ParseUpvoteRequest(body: Json): (r: Result<UpvoteRequest, seq<Issue>>)
    ensures r.Ok? <==>
              body.JObject? && "projectName" in body.fields
              && body.fields["projectName"].JString? && body.fields["projectName"].s != []
    ensures r.Ok? ==> r.value.projectName == body.fields["projectName"].s
    ensures r.Err? ==> r.error != []
  {
    if !body.JObject? then Err([InvalidType("")])
    else
      var issues := StringFieldIssues(body.fields, "projectName", 1, ProjectNameRequired, None, "");
      if issues == [] then Ok(UpvoteRequest(body.fields["projectName"].s)) else Err(issues)
  }

  /** The validated body of a comment. */
  datatype CommentRequest = CommentRequest(content: string, userName: string)

  /** `CommentSchema.safeParse(body)`: both fields are checked and all issues are collected. */
  function ParseCommentRequest(body: Json): (r: Result<CommentRequest, seq<Issue>>)
    ensures r.Ok? <==>
              && body.JObject?
              && "content" in body.fields && body.fields["content"].JString?
              && 1 <= Utf16Length(body.fields["content"].s) <= MaxCommentLength
              && "userName" in body.fields && body.fields["userName"].JString?
              && body.fields["userName"].s != []
    ensures r.Ok? ==> r.value == CommentRequest(body.fields["content"].s, body.fields["userName"].s)
    ensures r.Err? ==> r.error != []
  {
    if !body.JObject? then Err([InvalidType("")])
    else
      var issues :=
        StringFieldIssues(body.fields, "content", 1, CommentEmpty, Some(MaxCommentLength), CommentTooLong)
        + StringFieldIssues(body.fields, "userName", 1, NameRequired, None, "");
      if issues == [] then Ok(CommentRequest(body.fields["content"].s, body.fields["userName"].s))
      else Err(issues)
  }

  /** A string is at least one code unit long exactly when it is not empty. */
  lemma Utf16NonEmpty(s: string)
    ensures Utf16Length(s) >= 1 <==> s != []
  {
  }

  /** For text in the Basic Multilingual Plane the JavaScript length is the character count. */
  lemma {:induction false} Utf16LengthOfBmp(s: string)
    requires forall i :: 0 <= i < |s| ==> s[i] as int <= 0xFFFF
    ensures Utf16Length(s) == |s|
  {
    if s != [] {
      Utf16LengthOfBmp(s[1..]);
    }
  }

  /** For text wholly outside the Basic Multilingual Plane every character counts twice. */
  lemma {:induction false} Utf16LengthOfAstral(s: string)
    requires forall i :: 0 <= i < |s| ==> s[i] as int > 0xFFFF
    ensures Utf16Length(s) == 2 * |s|
  {
    if s != [] {
      Utf16LengthOfAstral(s[1..]);
    }
  }

  /** The code units of a concatenation are those of its pieces. */
  lemma {:induction false} Utf16LengthAppend(a: string, b: string)
    ensures Utf16Length(a + b) == Utf16Length(a) + Utf16Length(b)
    decreases |a|
  {
    if a == [] {
      assert a + b == b;
    } else {
      assert (a + b)[0] == a[0] && (a + b)[1..] == a[1..] + b;
      Utf16LengthAppend(a[1..], b);
    }
  }

  /** A comment body with a name is accepted exactly when its content has 1 to 500 code units. */
  lemma CommentLengthBoundary(content: string, userName: string)
    requires userName != []
    ensures var body := JObject(map["content" := JString(content), "userName" := JString(userName)]);
            ParseCommentRequest(body).Ok? <==> 1 <= Utf16Length(content) <= 500
  {
  }

  /**
   * The limit is on code units, not characters: 251 characters outside the
   * Basic Multilingual Plane are 502 code units, too long for a comment.
   */
  lemma CommentOfAstralText(content: string, userName: string)
    requires userName != [] && |content| == 251
    requires forall i :: 0 <= i < |content| ==> content[i] as int > 0xFFFF
    ensures ParseCommentRequest(JObject(map["content" := JString(content), "userName" := JString(userName)])).Err?
  {
    Utf16LengthOfAstral(content);
  }

  /**
   * Mixed text counts each character by its own width: 498 characters of
   * the Basic Multilingual Plane and one outside it are 500 code units,
   * exactly the limit, so the comment is accepted.
   */
  lemma CommentOfMixedText(bmp: string, astral: char, userName: string)
    requires userName != [] && |bmp| == 498
    requires forall i :: 0 <= i < |bmp| ==> bmp[i] as int <= 0xFFFF
    requires astral as int > 0xFFFF
    ensures ParseCommentRequest(JObject(map["content" := JString(bmp + [astral]), "userName" := JString(userName)])).Ok?
  {
    Utf16LengthAppend(bmp, [astral]);
    Utf16LengthOfBmp(bmp);
    CommentLengthBoundary(bmp + [astral], userName);
  }

  /** An upvote body without a non-empty `projectName` string is rejected. */
  lemma UpvoteRequiresProjectName(body: Json)
    requires !body.JObject? || "projectName" !in body.fields
             || !body.fields["projectName"].JString? || body.fields["projectName"] == JString([])
    ensures ParseUpvoteRequest(body).Err?
  {
  }
}
