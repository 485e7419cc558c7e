/** The client-side signup form (components/waitlist-form.tsx): the state fields `email`,
    `type` and `emailError`, the validator, the change handler, the type menu and the
    submit handler. Toasts and confetti are recorded as a sequence of effects. */
module SignupForm {
  import EmailPattern
  import Registrar

  const RequiredMessage := "Email is required"
  const MalformedMessage := "Please enter a valid email address"
  const AddedText := "Success! You've been added to our waitlist."
  const AlreadyText := "You're already in our waitlist."
  const FallbackText := "Something went wrong."
  const RejectedText := "Something went wrong. Please try again."

  /** What the form shows besides its fields: the celebration effect and the toasts. */
  datatype Effect = Confetti | SuccessToast(text: string) | InfoToast(text: string) | ErrorToast(text: string)

  /** How the call to the server action settles: with a response, or rejected (the
      request never produced one). */
  datatype Reply = Replied(response: Registrar.Response) | Rejected

  /** The message `validateEmail` leaves in `emailError`; "" when the email is accepted. */
  function ValidationError(value: string): (message: string)
    ensures message == "" <==> EmailPattern.Matches(value)
    ensures value == "" ==> message == RequiredMessage
    ensures value != "" && message != "" ==> message == MalformedMessage
  {
    if value == "" then RequiredMessage
    else if !EmailPattern.Matches(value) then MalformedMessage
    else ""
  }

  /** Every email the form lets through also passes the server's own check. */
  lemma ClientAcceptedPassesServerCheck(value: string)
    requires EmailPattern.Matches(value)
    ensures Registrar.ServerAccepts(value)
  {
    EmailPattern.MatchNeedsAtAndDot(value);
  }

  /** The effects of a settled call: confetti and a success toast for a new signup, an
      informational toast for a repeat, an error toast otherwise. */
  function Feedback(reply: Reply): (fx: seq<Effect>)
    ensures |fx| == (if reply == Replied(Registrar.Success(true)) then 2 else 1)
    ensures Confetti in fx <==> reply == Replied(Registrar.Success(true))
    ensures fx[|fx| - 1].SuccessToast? <==> reply == Replied(Registrar.Success(true))
    ensures fx[|fx| - 1].InfoToast? <==> reply == Replied(Registrar.Success(false))
    ensures fx[|fx| - 1].ErrorToast? <==> reply.Rejected? || reply.response.Failure?
    ensures forall k | 0 <= k < |fx| :: fx[k].ErrorToast? ==> fx[k].text != ""
    ensures reply.Replied? && reply.response.Failure? && reply.response.message != "" ==>
      fx == [ErrorToast(reply.response.message)]
    ensures reply.Replied? && reply.response.Failure? && reply.response.message == "" ==>
      fx == [ErrorToast(FallbackText)]
    ensures reply.Rejected? ==> fx == [ErrorToast(RejectedText)]
    ensures reply == Replied(Registrar.Success(true)) ==> fx == [Confetti, SuccessToast(AddedText)]
    ensures reply == Replied(Registrar.Success(false)) ==> fx == [InfoToast(AlreadyText)]
  {
    match reply
    case Replied(Success(true)) => [Confetti, SuccessToast(AddedText)]
    case Replied(Success(false)) => [InfoToast(AlreadyText)]
    case Replied(Failure(message)) => [ErrorToast(if message != "" then message else FallbackText)]
    case Rejected => [ErrorToast(RejectedText)]
  }

  /** The caption of the type menu. */
  function KindLabel(kind: string): (caption: string)
    ensures caption == "Indie Developer" <==> kind == "indie"
    ensures caption == "Organization" <==> kind != "indie"
  {
    if kind == "indie" then "Indie Developer" else "Organization"
  }

  class WaitlistForm {
    var email: string
    var kind: string
    var emailError: string
    var effects: seq<Effect>

    /** `type` is only ever set to one of the two menu values. */
    ghost predicate Valid()
      reads this
    {
      kind == "indie" || kind == "org"
    }

    constructor ()
      ensures Valid()
      ensures email == "" && kind == "indie" && emailError == "" && effects == []
    {
      email, kind, emailError, effects := "", "indie", "", [];
    }

    /** `validateEmail`: reports whether `value` is accepted and records the reason if not. */
    method ValidateEmail(value: string) returns (ok: bool)
      modifies this`emailError
      ensures ok == EmailPattern.Matches(value)
      ensures ok <==> emailError == ""
      ensures emailError == ValidationError(value)
    {
      if value == "" {
        emailError := RequiredMessage;
        return false;
      }
      if !EmailPattern.Matches(value) {
        emailError := MalformedMessage;
        return false;
      }
      emailError := "";
      return true;
    }

    /** The email field's change handler: a non-empty value is validated, an empty one
        only clears the error. */
    method EditEmail(value: string)
      modifies this`email, this`emailError
      ensures email == value
      ensures value == "" ==> emailError == ""
      ensures value != "" ==> emailError == ValidationError(value)
    {
      email := value;
      if value != "" {
        var _ := ValidateEmail(value);
      } else {
        emailError := "";
      }
    }

    /** The menu item "Indie Developer". */
    method ChooseIndie()
      modifies this`kind
      ensures Valid() && kind == "indie"
    {
      kind := "indie";
    }

    /** The menu item "Organization". */
    method ChooseOrg()
      modifies this`kind
      ensures Valid() && kind == "org"
    {
      kind := "org";
    }

    /** The result handling of `handleSubmit`: record the feedback, and clear the field
        only after a new signup. */
    method Settle(reply: Reply)
      modifies this`email, this`effects
      ensures effects == old(effects) + Feedback(reply)
      ensures email == if reply == Replied(Registrar.Success(true)) then "" else old(email)
    {
      match reply {
        case Replied(response) =>
          if response.Success? {
            if response.isNew {
              effects := effects + [Confetti, SuccessToast(AddedText)];
              email := "";
            } else {
              effects := effects + [InfoToast(AlreadyText)];
            }
          } else {
            var text := if response.message != "" then response.message else FallbackText;
            effects := effects + [ErrorToast(text)];
          }
        case Rejected =>
          effects := effects + [ErrorToast(RejectedText)];
      }
    }

    /** `handleSubmit`: validate the current email; only when it is accepted call the
        server action with the current email and type, then settle. `reachable` false
        stands for a call that rejects before reaching the server. */
    method Submit(table: Registrar.WaitlistTable, env: Registrar.Env, reachable: bool) returns (called: bool)
      requires Valid() && table.Valid()
      modifies this, table
      ensures Valid() && table.Valid() && kind == old(kind)
      ensures called == EmailPattern.Matches(old(email))
      ensures called ==> Registrar.ServerAccepts(old(email))
      ensures emailError == ValidationError(old(email))
      ensures !(called && reachable) ==> table.entries == old(table.entries)
      ensures !called ==> email == old(email) && effects == old(effects)
      ensures called && !reachable ==> email == old(email) && effects == old(effects) + [ErrorToast(RejectedText)]
      ensures called && reachable ==>
        var o := Registrar.Register(old(table.entries), old(email), old(kind), env);
        table.entries == o.table
        && effects == old(effects) + Feedback(Replied(o.response))
        && email == (if o.response == Registrar.Success(true) then "" else old(email))
    {
      called := ValidateEmail(email);
      if !called {
        return;
      }
      ClientAcceptedPassesServerCheck(email);
      if !reachable {
        Settle(Rejected);
        return;
      }
      var response, _ := Registrar.JoinWaitlist(table, email, kind, env);
      Settle(Replied(response));
    }
  }
}
