/**
  * Request validation rules of the create-room, register and login routes. Each rule set
  * returns the messages of every rule that fails, in rule order; an empty list lets the
  * request through. A missing field is validated as the empty string, except a field marked
  * optional, which is skipped when absent. The `trim` sanitizer runs before the rules after it
  * in a chain and replaces the field's value.
  */
module Validation {
  import opened Wrappers
  import opened Text

  const RoomNameMessage: string := "Room name must be between 1 and 50 characters"
  const DescriptionMessage: string := "Description must be less than 200 characters"
  const UsernameLengthMessage: string := "Username must be between 3 and 20 characters"
  const UsernameCharsMessage: string := "Username can only contain letters, numbers, and underscores"
  const PasswordLengthMessage: string := "Password must be at least 6 characters long"
  const PasswordRequiredMessage: string := "Password is required"

  /** The value a rule chain sees for a field: a missing field reads as the empty string. */
  function FieldValue(field: Option<string>): string {
    field.GetOr("")
  }

  /** The room-name rule after trimming: 1 to 50 characters. */
  predicate RoomNameOk(name: Option<string>) {
    1 <= |Trim(FieldValue(name))| <= 50
  }

  /** The optional description rule: absent passes; present, after trimming, at most 200. */
  predicate DescriptionOk(description: Option<string>) {
    description.None? || |Trim(description.value)| <= 200
  }

  /** The failed-rule messages of the create-room route. */
  function CreateRoomErrors(name: Option<string>, description: Option<string>): (errs: seq<string>)
    ensures errs == [] <==> RoomNameOk(name) && DescriptionOk(description)
    ensures RoomNameMessage in errs <==> !RoomNameOk(name)
    ensures DescriptionMessage in errs <==> !DescriptionOk(description)
  {
    (if RoomNameOk(name) then [] else [RoomNameMessage])
    + (if DescriptionOk(description) then [] else [DescriptionMessage])
  }

  /** A name made only of white space (or missing) is rejected. */
  lemma BlankNameRejected(name: Option<string>)
    requires forall k :: 0 <= k < |FieldValue(name)| ==> IsSpace(FieldValue(name)[k])
    ensures RoomNameMessage in CreateRoomErrors(name, None)
  {
    TrimEmptyIffAllSpace(FieldValue(name));
  }

  /** The username character class `[A-Za-z0-9_]`. */
  predicate IsUsernameChar(c: char) {
    ('a' <= c <= 'z') || ('A' <= c <= 'Z') || ('0' <= c <= '9') || c == '_'
  }

  /** The pattern `^[a-zA-Z0-9_]+$`: one or more allowed characters and nothing else. */
  predicate MatchesUsernamePattern(s: string) {
    |s| > 0 && forall k :: 0 <= k < |s| ==> IsUsernameChar(s[k])
  }

  /** The username length rule, on the trimmed username. */
  predicate UsernameLengthOk(u: string) {
    3 <= |u| <= 20
  }

  /** The failed-rule messages of the register route (the e-mail rules are not modelled).
      The username is trimmed before both of its rules; the password is not trimmed. */
  function RegisterErrors(username: Option<string>, password: Option<string>): (errs: seq<string>)
    ensures errs == [] <==>
      && UsernameLengthOk(Trim(FieldValue(username)))
      && MatchesUsernamePattern(Trim(FieldValue(username)))
      && |FieldValue(password)| >= 6
    ensures UsernameLengthMessage in errs <==> !UsernameLengthOk(Trim(FieldValue(username)))
    ensures UsernameCharsMessage in errs <==> !MatchesUsernamePattern(Trim(FieldValue(username)))
    ensures PasswordLengthMessage in errs <==> |FieldValue(password)| < 6
  {
    var u := Trim(FieldValue(username));
    var lengthErrs := if UsernameLengthOk(u) then [] else [UsernameLengthMessage];
    var charErrs := if MatchesUsernamePattern(u) then [] else [UsernameCharsMessage];
    var passwordErrs := if |FieldValue(password)| >= 6 then [] else [PasswordLengthMessage];
    assert |UsernameLengthMessage| == 44 && |UsernameCharsMessage| == 59 && |PasswordLengthMessage| == 43;
    assert UsernameCharsMessage !in lengthErrs && UsernameCharsMessage !in passwordErrs;
    assert PasswordLengthMessage !in lengthErrs && PasswordLengthMessage !in charErrs;
    assert UsernameLengthMessage !in charErrs && UsernameLengthMessage !in passwordErrs;
    lengthErrs + charErrs + passwordErrs
  }

  /** The failed-rule messages of the login route (the e-mail rules are not modelled). */
  function LoginErrors(password: Option<string>): (errs: seq<string>)
    ensures errs == [] <==> password.Some? && |password.value| > 0
    ensures errs != [] ==> errs == [PasswordRequiredMessage]
  {
    if |FieldValue(password)| > 0 then [] else [PasswordRequiredMessage]
  }

  /** Leading and trailing white space around a valid username is trimmed away and accepted. */
  lemma PaddedUsernameAccepted(pre: string, core: string, post: string, password: string)
    requires AllSpace(pre) && AllSpace(post)
    requires 3 <= |core| <= 20 && MatchesUsernamePattern(core) && |password| >= 6
    ensures RegisterErrors(Some(pre + core + post), Some(password)) == []
  {
    assert !IsSpace(core[0]) && !IsSpace(core[|core| - 1]);
    TrimPadded(pre, core, post);
    assert FieldValue(Some(pre + core + post)) == pre + core + post;
  }

  /** White space inside a username is rejected by the character rule: a username that
      does not start or end with white space is its own trim, so inner white space stays. */
  lemma InnerSpaceRejected(u: string, k: nat, password: Option<string>)
    requires 0 < k < |u| - 1 && IsSpace(u[k])
    requires !IsSpace(u[0]) && !IsSpace(u[|u| - 1])
    ensures UsernameCharsMessage in RegisterErrors(Some(u), password)
  {
    TrimUnpadded(u);
    assert FieldValue(Some(u)) == u;
    assert !MatchesUsernamePattern(u) by {
      assert !IsUsernameChar(u[k]);
    }
  }
}
