/**
 * The validation rules of an update request. Each field is optional
 * ('sometimes'), but a field that is present must be a non-blank string
 * ('required', 'string') and meet its own limits; a present email must not
 * belong to any user other than the one being updated.
 */
module UserUpdateRequest {
  import opened Wrappers
  import opened Store
  import opened UpdateUserAction

  const MaxLength: nat := 255
  const MinPasswordLength: nat := 8

  /** A field's value as it reaches the validator: null, a string, or any other JSON value. */
  datatype Value = Null | Str(s: string) | NonString

  /** The request body; None is a key absent from it. */
  datatype UpdateInput = UpdateInput(name: Option<Value>, email: Option<Value>, password: Option<Value>)

  datatype Field = Name | Email | Password

  /** The route's `user` parameter: a bound user model, or the raw key when it was not bound. */
  datatype RouteUser = BoundModel(user: User) | RawKey(key: int)

  /** The id the uniqueness rule ignores: the model's key, or the raw route value. */
  function IgnoredId(route: RouteUser): int
  {
    match route
    case BoundModel(u) => u.id
    case RawKey(k) => k
  }

  /** A bound model and its raw key are validated alike: the rule ignores the same row either way. */
  lemma RouteFormsAgree(users: seq<User>, user: User, isEmail: string -> bool, input: UpdateInput)
    ensures Validate(users, BoundModel(user), isEmail, input) == Validate(users, RawKey(user.id), isEmail, input)
  {
  }

  /** The characters PHP's trim() strips. */
  predicate IsTrimmed(c: char)
  {
    c == ' ' || c == '\t' || c == '\n' || c == '\r' || c == '\0' || c == 11 as char
  }

  /** The 'required' rule: not null and not a string that is empty after trimming. */
  predicate Required(v: Value)
  {
    match v
    case Null => false
    case Str(s) => exists i :: 0 <= i < |s| && !IsTrimmed(s[i])
    case NonString => true
  }

  /** 'required', 'string', 'max:255'. */
  predicate NamePasses(v: Value)
  {
    Required(v) && v.Str? && |v.s| <= MaxLength
  }

  /** 'required', 'string', 'email', 'max:255' and the uniqueness rule ignoring `ignoredId`. */
  predicate EmailPasses(users: seq<User>, ignoredId: int, isEmail: string -> bool, v: Value)
  {
    Required(v) && v.Str? && isEmail(v.s) && |v.s| <= MaxLength && !EmailTakenByOther(users, v.s, ignoredId)
  }

  /** 'required', 'string', 'min:8'. */
  predicate PasswordPasses(v: Value)
  {
    Required(v) && v.Str? && |v.s| >= MinPasswordLength
  }

  /** The present fields that break a rule. */
  function Failing(users: seq<User>, route: RouteUser, isEmail: string -> bool, input: UpdateInput): set<Field>
  {
    (if input.name.Some? && !NamePasses(input.name.value) then {Name} else {})
    + (if input.email.Some? && !EmailPasses(users, IgnoredId(route), isEmail, input.email.value) then {Email} else {})
    + (if input.password.Some? && !PasswordPasses(input.password.value) then {Password} else {})
  }

  function Validated(v: Option<Value>): Option<string>
    requires v.Some? ==> v.value.Str?
  {
    if v.Some? then Some(v.value.s) else None
  }

  /**
   * Validation of an update request against the users table: either the
   * validated payload, holding exactly the present fields, or the set of fields
   * that failed, which is never empty and never names an absent field.
   */
  function Validate(users: seq<User>, route: RouteUser, isEmail: string -> bool, input: UpdateInput)
    : (r: Result<UpdatePayload, set<Field>>)
    ensures r.Err? ==> r.error != {}
    ensures (&& (input.name.Some? ==>
                   var v := input.name.value;
                   v.Str? && |v.s| <= 255 && exists i :: 0 <= i < |v.s| && !IsTrimmed(v.s[i]))
             && (input.email.Some? ==>
                   var v := input.email.value;
                   && v.Str? && isEmail(v.s) && |v.s| <= 255 && !EmailTakenByOther(users, v.s, IgnoredId(route))
                   && exists i :: 0 <= i < |v.s| && !IsTrimmed(v.s[i]))
             && (input.password.Some? ==>
                   var v := input.password.value;
                   v.Str? && |v.s| >= 8 && exists i :: 0 <= i < |v.s| && !IsTrimmed(v.s[i])))
            ==> r.Ok?
    ensures r.Err? && Name in r.error ==>
              && input.name.Some?
              && var v := input.name.value;
                 !(v.Str? && |v.s| <= 255 && exists i :: 0 <= i < |v.s| && !IsTrimmed(v.s[i]))
    ensures r.Err? && Email in r.error ==>
              && input.email.Some?
              && var v := input.email.value;
                 !(&& v.Str? && isEmail(v.s) && |v.s| <= 255 && !EmailTakenByOther(users, v.s, IgnoredId(route))
                   && exists i :: 0 <= i < |v.s| && !IsTrimmed(v.s[i]))
    ensures r.Err? && Password in r.error ==>
              && input.password.Some?
              && var v := input.password.value;
                 !(v.Str? && |v.s| >= 8 && exists i :: 0 <= i < |v.s| && !IsTrimmed(v.s[i]))
    ensures (input.name.Some? &&
               var v := input.name.value;
               !(v.Str? && |v.s| <= 255 && exists i :: 0 <= i < |v.s| && !IsTrimmed(v.s[i])))
            ==> r.Err? && Name in r.error
    ensures (input.email.Some? &&
               var v := input.email.value;
               !(&& v.Str? && isEmail(v.s) && |v.s| <= 255 && !EmailTakenByOther(users, v.s, IgnoredId(route))
                 && exists i :: 0 <= i < |v.s| && !IsTrimmed(v.s[i])))
            ==> r.Err? && Email in r.error
    ensures (input.password.Some? &&
               var v := input.password.value;
               !(v.Str? && |v.s| >= 8 && exists i :: 0 <= i < |v.s| && !IsTrimmed(v.s[i])))
            ==> r.Err? && Password in r.error
    ensures r.Ok? ==> (r.value.name.Some? <==> input.name.Some?)
                      && (r.value.email.Some? <==> input.email.Some?)
                      && (r.value.password.Some? <==> input.password.Some?)
    ensures r.Ok? && r.value.name.Some? ==>
              var n := r.value.name.value;
              input.name == Some(Str(n)) && |n| <= 255 && exists i :: 0 <= i < |n| && !IsTrimmed(n[i])
    ensures r.Ok? && r.value.email.Some? ==>
              var e := r.value.email.value;
              input.email == Some(Str(e)) && isEmail(e) && |e| <= 255 && !EmailTakenByOther(users, e, IgnoredId(route))
    ensures r.Ok? && r.value.password.Some? ==>
              var p := r.value.password.value;
              input.password == Some(Str(p)) && |p| >= 8
  {
    var failing := Failing(users, route, isEmail, input);
    if failing != {} then Err(failing)
    else Ok(UpdatePayload(Validated(input.name), Validated(input.email), Validated(input.password)))
  }

  /** A request that leaves every field out always passes and changes nothing. */
  lemma EmptyRequestPasses(users: seq<User>, route: RouteUser, isEmail: string -> bool)
    ensures Validate(users, route, isEmail, UpdateInput(None, None, None)) == Ok(UpdatePayload(None, None, None))
  {
  }

  /** A present field that is null, or a string that is blank after trimming, always fails. */
  lemma BlankFieldFails(users: seq<User>, route: RouteUser, isEmail: string -> bool, input: UpdateInput, f: Field, v: Value)
    requires v == Null || (v.Str? && forall i :: 0 <= i < |v.s| ==> IsTrimmed(v.s[i]))
    requires f == Name ==> input.name == Some(v)
    requires f == Email ==> input.email == Some(v)
    requires f == Password ==> input.password == Some(v)
    ensures var r := Validate(users, route, isEmail, input);
            r.Err? && f in r.error
  {
  }

  /** The email-uniqueness rule never rejects the email the user being updated already has. */
  lemma OwnEmailNeverTaken(users: seq<User>, nextId: nat, user: User)
    requires UsersWellFormed(users, nextId) && user in users
    ensures !EmailTakenByOther(users, user.email, IgnoredId(BoundModel(user)))
  {
  }

  /** So a request that keeps the user's own email passes the email rule whenever the format and length rules pass. */
  lemma OwnEmailPasses(users: seq<User>, nextId: nat, user: User, isEmail: string -> bool, input: UpdateInput)
    requires UsersWellFormed(users, nextId) && user in users
    requires input.email == Some(Str(user.email))
    requires isEmail(user.email) && |user.email| <= 255 && exists i :: 0 <= i < |user.email| && !IsTrimmed(user.email[i])
    ensures var r := Validate(users, BoundModel(user), isEmail, input);
            r.Ok? || Email !in r.error
  {
  }

  /** An email that another user holds is always rejected. */
  lemma OthersEmailFails(users: seq<User>, user: User, other: User, isEmail: string -> bool, input: UpdateInput)
    requires other in users && other.id != user.id
    requires input.email == Some(Str(other.email))
    ensures var r := Validate(users, BoundModel(user), isEmail, input);
            r.Err? && Email in r.error
  {
  }

  /**
   * A payload that passed validation for the bound user never collides with
   * the unique index when the update action saves it.
   */
  lemma ValidatedUpdateNeverCollides(users: seq<User>, nextId: nat, user: User, isEmail: string -> bool,
                                     input: UpdateInput, salt: nat)
    requires UsersWellFormed(users, nextId) && user in users
    requires Validate(users, BoundModel(user), isEmail, input).Ok?
    ensures var payload := Validate(users, BoundModel(user), isEmail, input).value;
            !EmailTakenByOther(users, Fill(user, payload, salt).email, user.id)
  {
  }
}
