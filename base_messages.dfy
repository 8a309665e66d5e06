/**
 * `BaseMessages.get_message_type`: the reverse lookup from a validation
 * message to the name of the class constant that holds it, over the
 * class's own attributes (`vars(cls)`) in declaration order.
 */
module BaseMessages {
  /** An attribute value: a string, or anything else (a classmethod, a
      tuple, a descriptor). */
  datatype Value = Str(s: string) | NonString

  datatype Attr = Attr(name: string, value: Value)

  const Unknown := "UNKNOWN USE CASE"

  /** `name.startswith('_')`. */
  predicate Private(name: string) {
    |name| > 0 && name[0] == '_'
  }

  /** The test inside the loop: a string value equal to `message` under a
      name without a leading underscore. */
  predicate Matches(a: Attr, message: string) {
    a.value == Str(message) && !Private(a.name)
  }

  /** `get_message_type(message)` for a class whose `vars` are `attrs`. */
  function GetMessageType(attrs: seq<Attr>, message: string): string {
    if attrs == [] then Unknown
    else if Matches(attrs[0], message) then attrs[0].name
    else GetMessageType(attrs[1..], message)
  }

  /** The first matching attribute, and only the first, gives the result. */
  lemma {:induction false} FirstMatchWins(attrs: seq<Attr>, message: string, k: nat)
    requires k < |attrs| && Matches(attrs[k], message)
    requires forall j :: 0 <= j < k ==> !Matches(attrs[j], message)
    ensures GetMessageType(attrs, message) == attrs[k].name
  {
    if k > 0 {
      assert !Matches(attrs[0], message);
      assert forall j :: 0 <= j < k - 1 ==> attrs[1..][j] == attrs[j + 1];
      FirstMatchWins(attrs[1..], message, k - 1);
    }
  }

  /** Without a matching attribute the answer is the sentinel. */
  lemma {:induction false} NoMatchIsUnknown(attrs: seq<Attr>, message: string)
    requires forall j :: 0 <= j < |attrs| ==> !Matches(attrs[j], message)
    ensures GetMessageType(attrs, message) == Unknown
  {
    if attrs != [] {
      assert forall j :: 0 <= j < |attrs| - 1 ==> attrs[1..][j] == attrs[j + 1];
      NoMatchIsUnknown(attrs[1..], message);
    }
  }

  /** The sentinel comes back exactly when no attribute matches, as long
      as no attribute is itself named like the sentinel (attribute names
      are identifiers, which hold no spaces). */
  lemma UnknownIffNoMatch(attrs: seq<Attr>, message: string)
    requires forall j :: 0 <= j < |attrs| ==> attrs[j].name != Unknown
    ensures GetMessageType(attrs, message) == Unknown
      <==> forall j :: 0 <= j < |attrs| ==> !Matches(attrs[j], message)
  {
    if exists j :: 0 <= j < |attrs| && Matches(attrs[j], message) {
      var k := FirstMatch(attrs, message);
      FirstMatchWins(attrs, message, k);
    } else {
      NoMatchIsUnknown(attrs, message);
    }
  }

  /** The index of the first matching attribute. */
  function FirstMatch(attrs: seq<Attr>, message: string): (k: nat)
    requires exists j :: 0 <= j < |attrs| && Matches(attrs[j], message)
    ensures k < |attrs| && Matches(attrs[k], message)
    ensures forall j :: 0 <= j < k ==> !Matches(attrs[j], message)
  {
    if Matches(attrs[0], message) then 0
    else
      assert exists j :: 0 <= j < |attrs| - 1 && Matches(attrs[1..][j], message) by {
        var j :| 0 <= j < |attrs| && Matches(attrs[j], message);
        assert attrs[1..][j - 1] == attrs[j];
      }
      var k := FirstMatch(attrs[1..], message);
      assert forall j :: 0 < j <= k ==> attrs[j] == attrs[1..][j - 1];
      k + 1
  }

  /** Any result other than the sentinel names an attribute whose value is
      exactly the message: a message that only contains a constant, or
      differs from one in whitespace, is not recognised. */
  lemma {:induction false} ResultHoldsMessage(attrs: seq<Attr>, message: string)
    requires GetMessageType(attrs, message) != Unknown
    ensures exists j :: (0 <= j < |attrs| && attrs[j].name == GetMessageType(attrs, message)
                        && attrs[j].value == Str(message) && !Private(attrs[j].name))
  {
    if !Matches(attrs[0], message) {
      ResultHoldsMessage(attrs[1..], message);
      var j :| 0 <= j < |attrs| - 1 && attrs[1..][j].name == GetMessageType(attrs[1..], message)
        && attrs[1..][j].value == Str(message) && !Private(attrs[1..][j].name);
      assert attrs[j + 1] == attrs[1..][j];
    }
  }

  /** The public string constants of a class hold pairwise different values. */
  predicate DistinctConstants(attrs: seq<Attr>) {
    forall i, j ::
      (0 <= i < j < |attrs| && !Private(attrs[i].name) && attrs[i].value.Str? && !Private(attrs[j].name))
      ==> attrs[i].value != attrs[j].value
  }

  /** With distinct values, looking up any public constant's value gives
      back the constant's own name. */
  lemma RoundTrip(attrs: seq<Attr>, k: nat)
    requires DistinctConstants(attrs)
    requires k < |attrs| && !Private(attrs[k].name) && attrs[k].value.Str?
    ensures GetMessageType(attrs, attrs[k].value.s) == attrs[k].name
  {
    FirstMatchWins(attrs, attrs[k].value.s, k);
  }

  /** `vars(BaseMessages)`: its own entries are private or not strings. */
  const BaseMessagesAttrs: seq<Attr> := [
    Attr("__module__", Str("utils.validation_messages.base_messages")),
    Attr("__doc__", Str("Base class for validation messages with naming functionality")),
    Attr("get_message_type", NonString),
    Attr("__dict__", NonString),
    Attr("__weakref__", NonString)
  ]

  /** Only the class's own attributes are searched, so asking the base
      class itself never finds anything. */
  lemma BaseClassKnowsNothing(message: string)
    ensures GetMessageType(BaseMessagesAttrs, message) == Unknown
  {
    NoMatchIsUnknown(BaseMessagesAttrs, message);
  }

  /** `vars(LoginPageMessages)`: the module and docstring entries, then the
      constants in declaration order. */
  const LoginPageMessagesAttrs: seq<Attr> := [
    Attr("__module__", Str("utils.validation_messages.login_page_messages")),
    Attr("__doc__", Str("\n    Validation messages for the login page\n    ")),
    Attr("INVALID_EMAIL", Str("Le champ E-mail doit contenir une adresse e-mail valide.")),
    Attr("EMPTY_EMAIL", Str("Le champ E-mail est obligatoire.")),
    Attr("EMPTY_PASSWORD", Str("Le champ Mot de passe est obligatoire.")),
    Attr("WRONG_CREDENTIALS", Str("Votre compte n'a pas \U{E9}t\U{E9} trouv\U{E9}. Veuillez r\U{E9}essayer svp")),
    Attr("RESET_PASSWORD_SUCCESS", Str("Votre mot de passe a \U{E9}t\U{E9} modifi\U{E9} !"))
  ]

  /** `vars(RegisterPageMessages)`: the module and docstring entries, then the
      constants in declaration order. */
  const RegisterPageMessagesAttrs: seq<Attr> := [
    Attr("__module__", Str("utils.validation_messages.register_page_messages")),
    Attr("__doc__", Str("\n    Validation messages for the register page\n    ")),
    Attr("INVALID_EMAIL", Str("Le champ E-mail doit contenir une adresse e-mail valide.")),
    Attr("INVALID_PASSWORD", Str("Le mot de passe doit contenir au moins 8 caract\U{E8}res.")),
    Attr("INVALID_PASSWORD_CONFIRMATION", Str("Le champ Confirmation du mot de passe ne correspond pas.")),
    Attr("EMPTY_LASTNAME", Str("Le champ Nom est obligatoire.")),
    Attr("EMPTY_FIRSTNAME", Str("Le champ Pr\U{E9}nom est obligatoire.")),
    Attr("EMPTY_EMAIL", Str("Le champ E-mail est obligatoire.")),
    Attr("EMPTY_PASSWORD", Str("Le champ Mot de passe est obligatoire.")),
    Attr("ALREADY_REGISTERED", Str("L'adresse e-mail est d\U{E9}j\U{E0} utilis\U{E9}e."))
  ]

  /** `vars(ForgotPasswordPageMessages)`: the module and docstring entries, then the
      constants in declaration order. */
  const ForgotPasswordPageMessagesAttrs: seq<Attr> := [
    Attr("__module__", Str("utils.validation_messages.forgot_password_page_messages")),
    Attr("__doc__", Str("\n       validation messages for the forgot password page\n    ")),
    Attr("EMPTY_EMAIL", Str("Le champ E-mail est obligatoire.")),
    Attr("INVALID_EMAIL", Str("Le champ E-mail doit contenir une adresse e-mail valide.")),
    Attr("UNREGISTERED_EMAIL", Str("Le champ E-mail s\U{E9}lectionn\U{E9} est invalide.")),
    Attr("SUCCESS_MESSAGE", Str("Nous avons envoy\U{E9} par e-mail le lien de r\U{E9}initialisation de votre mot de passe!"))
  ]

  /** `vars(ResetPasswordPageMessages)`: the module and docstring entries, then the
      constants in declaration order. */
  const ResetPasswordPageMessagesAttrs: seq<Attr> := [
    Attr("__module__", Str("utils.validation_messages.reset_password_page_messages")),
    Attr("__doc__", Str("\n    validation messages for the reset password page\n    ")),
    Attr("EMPTY_PASSWORD", Str("Le champ Mot de passe est obligatoire.")),
    Attr("EMPTY_PASSWORD_CONFIRMATION", Str("Le champ Confirmation du mot de passe est obligatoire.")),
    Attr("INVALID_PASSWORD", Str("Le mot de passe doit contenir au moins 8 caract\U{E8}res.")),
    Attr("INVALID_PASSWORD_CONFIRMATION", Str("Le champ Confirmation du mot de passe ne correspond pas."))
  ]

  /** `vars(RegisterCompanyPageMessages)`: the module and docstring entries, then the
      constants in declaration order. */
  const RegisterCompanyPageMessagesAttrs: seq<Attr> := [
    Attr("__module__", Str("utils.validation_messages.register_company_page_messages")),
    Attr("__doc__", Str("\n    Validation messages for the register company page\n    ")),
    Attr("INVALID_EMAIL", Str("Le champ E-mail doit \U{EA}tre une adresse email valide.")),
    Attr("EMPTY_NAME", Str("Le champ nom est obligatoire.")),
    Attr("EMPTY_SIRET", Str("Le champ siret est obligatoire.")),
    Attr("EMPTY_EMAIL", Str("Le champ E-mail est obligatoire.")),
    Attr("ALREADY_REGISTERED", Str("La valeur du champ E-mail est d\U{E9}j\U{E0} utilis\U{E9}e."))
  ]

  /** Every constant of `LoginPageMessages` maps back to its own name. */
  lemma LoginPageMessagesRoundTrip(k: nat)
    requires 2 <= k < |LoginPageMessagesAttrs|
    ensures GetMessageType(LoginPageMessagesAttrs, LoginPageMessagesAttrs[k].value.s) == LoginPageMessagesAttrs[k].name
  {
    LoginPageMessagesDistinct();
    RoundTrip(LoginPageMessagesAttrs, k);
  }

  /** The public constants of `LoginPageMessages` hold pairwise different messages. */
  lemma LoginPageMessagesDistinct()
    ensures DistinctConstants(LoginPageMessagesAttrs)
  {
  }

  /** Every constant of `RegisterPageMessages` maps back to its own name. */
  lemma RegisterPageMessagesRoundTrip(k: nat)
    requires 2 <= k < |RegisterPageMessagesAttrs|
    ensures GetMessageType(RegisterPageMessagesAttrs, RegisterPageMessagesAttrs[k].value.s) == RegisterPageMessagesAttrs[k].name
  {
    RegisterPageMessagesDistinct();
    RoundTrip(RegisterPageMessagesAttrs, k);
  }

  /** The public constants of `RegisterPageMessages` hold pairwise different messages. */
  lemma RegisterPageMessagesDistinct()
    ensures DistinctConstants(RegisterPageMessagesAttrs)
  {
  }

  /** Every constant of `ForgotPasswordPageMessages` maps back to its own name. */
  lemma ForgotPasswordPageMessagesRoundTrip(k: nat)
    requires 2 <= k < |ForgotPasswordPageMessagesAttrs|
    ensures GetMessageType(ForgotPasswordPageMessagesAttrs, ForgotPasswordPageMessagesAttrs[k].value.s) == ForgotPasswordPageMessagesAttrs[k].name
  {
    ForgotPasswordPageMessagesDistinct();
    RoundTrip(ForgotPasswordPageMessagesAttrs, k);
  }

  /** The public constants of `ForgotPasswordPageMessages` hold pairwise different messages. */
  lemma ForgotPasswordPageMessagesDistinct()
    ensures DistinctConstants(ForgotPasswordPageMessagesAttrs)
  {
  }

  /** Every constant of `ResetPasswordPageMessages` maps back to its own name. */
  lemma ResetPasswordPageMessagesRoundTrip(k: nat)
    requires 2 <= k < |ResetPasswordPageMessagesAttrs|
    ensures GetMessageType(ResetPasswordPageMessagesAttrs, ResetPasswordPageMessagesAttrs[k].value.s) == ResetPasswordPageMessagesAttrs[k].name
  {
    ResetPasswordPageMessagesDistinct();
    RoundTrip(ResetPasswordPageMessagesAttrs, k);
  }

  /** The public constants of `ResetPasswordPageMessages` hold pairwise different messages. */
  lemma ResetPasswordPageMessagesDistinct()
    ensures DistinctConstants(ResetPasswordPageMessagesAttrs)
  {
  }

  /** Every constant of `RegisterCompanyPageMessages` maps back to its own name. */
  lemma RegisterCompanyPageMessagesRoundTrip(k: nat)
    requires 2 <= k < |RegisterCompanyPageMessagesAttrs|
    ensures GetMessageType(RegisterCompanyPageMessagesAttrs, RegisterCompanyPageMessagesAttrs[k].value.s) == RegisterCompanyPageMessagesAttrs[k].name
  {
    RegisterCompanyPageMessagesDistinct();
    RoundTrip(RegisterCompanyPageMessagesAttrs, k);
  }

  /** The public constants of `RegisterCompanyPageMessages` hold pairwise different messages. */
  lemma RegisterCompanyPageMessagesDistinct()
    ensures DistinctConstants(RegisterCompanyPageMessagesAttrs)
  {
  }

  /** The same text as a login constant with a trailing space is unknown. */
  lemma TrailingSpaceIsUnknown()
    ensures GetMessageType(LoginPageMessagesAttrs, "Le champ E-mail est obligatoire.") == "EMPTY_EMAIL"
    ensures GetMessageType(LoginPageMessagesAttrs, "Le champ E-mail est obligatoire. ") == Unknown
  {
    LoginPageMessagesDistinct();
    RoundTrip(LoginPageMessagesAttrs, 3);
    NoMatchIsUnknown(LoginPageMessagesAttrs, "Le champ E-mail est obligatoire. ");
  }
}
