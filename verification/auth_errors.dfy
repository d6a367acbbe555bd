/** The text shown for a sign-in error code (`AuthErrorMapper`): a fixed
    message for each code the authentication library reports, and the code
    itself for anything else. */
module AuthErrors {

  const SigningIn: string := "Error signing in"

  /** The codes with a message of their own, and those messages, position by position. */
  const Codes: seq<string> := ["OAuthSignin", "OAuthCallback", "OAuthCreateAccount", "EmailCreateAccount",
                               "Callback", "OAuthAccountNotLinked", "EmailSignin"]
  const Messages: seq<string> := [
    "Error in constructing an authorization URL",
    "Error in handling the response from the OAuth provider",
    "Could not create OAuth provider user in the database",
    "Could not create email provider user in the database",
    "Error in the OAuth callback handler route",
    "Account is already linked, but not with this OAuth account",
    "Sending the e-mail with the verification token failed"]

  /** The codes that all read as a failed sign-in. */
  const SignInCodes: seq<string> := ["CredentialsSignin", "SessionRequired", "Default"]

  /** `AuthErrorMapper(errorType)`. */
  function AuthErrorMapper(code: string): (r: string)
    ensures forall i :: 0 <= i < |Codes| && code == Codes[i] ==> r == Messages[i]
    ensures code in SignInCodes ==> r == SigningIn
    ensures code !in Codes && code !in SignInCodes ==> r == code
  {
    if code == "OAuthSignin" then "Error in constructing an authorization URL"
    else if code == "OAuthCallback" then "Error in handling the response from the OAuth provider"
    else if code == "OAuthCreateAccount" then "Could not create OAuth provider user in the database"
    else if code == "EmailCreateAccount" then "Could not create email provider user in the database"
    else if code == "Callback" then "Error in the OAuth callback handler route"
    else if code == "OAuthAccountNotLinked" then "Account is already linked, but not with this OAuth account"
    else if code == "EmailSignin" then "Sending the e-mail with the verification token failed"
    else if code == "CredentialsSignin" || code == "SessionRequired" || code == "Default" then SigningIn
    else code
  }

  /** No message is itself a code: every message is longer than every code,
      and the sign-in message has a length no code has. */
  lemma MessagesAreNotCodes()
    ensures forall m :: m in Messages || m == SigningIn ==> m !in Codes && m !in SignInCodes
  {
    assert forall i :: 0 <= i < |Messages| ==> |Messages[i]| > 21;
    assert forall i :: 0 <= i < |Codes| ==> |Codes[i]| <= 21 && |Codes[i]| != |SigningIn|;
    assert forall i :: 0 <= i < |SignInCodes| ==> |SignInCodes[i]| <= 21 && |SignInCodes[i]| != |SigningIn|;
  }

  /** A code comes back unchanged exactly when it is not one of the ten known codes. */
  lemma UnknownCodesUnchanged(code: string)
    ensures AuthErrorMapper(code) == code <==> code !in Codes && code !in SignInCodes
  {
    MessagesAreNotCodes();
    if code in Codes {
      var i :| 0 <= i < |Codes| && Codes[i] == code;
      assert Messages[i] in Messages;
    }
  }

  /** Mapping twice is mapping once: a message maps to itself. */
  lemma MapperIdempotent(code: string)
    ensures AuthErrorMapper(AuthErrorMapper(code)) == AuthErrorMapper(code)
  {
    MessagesAreNotCodes();
    var r := AuthErrorMapper(code);
    if code in Codes {
      var i :| 0 <= i < |Codes| && Codes[i] == code;
      assert r == Messages[i] && Messages[i] in Messages;
    }
  }

  /** The seven messages differ from each other and from the sign-in message,
      so two known codes share a message only when both are sign-in codes. */
  lemma KnownCodesDistinguished(a: string, b: string)
    requires a in Codes || a in SignInCodes
    requires b in Codes || b in SignInCodes
    requires AuthErrorMapper(a) == AuthErrorMapper(b)
    ensures a == b || (a in SignInCodes && b in SignInCodes)
  {
    if a in Codes {
      var i :| 0 <= i < |Codes| && Codes[i] == a;
      CodeMessageUnique(i, b);
    } else if b in Codes {
      var j :| 0 <= j < |Codes| && Codes[j] == b;
      CodeMessageUnique(j, a);
    }
  }

  /** Only the code at position `i` maps to the message at position `i`. */
  lemma CodeMessageUnique(i: nat, b: string)
    requires i < |Codes| && (b in Codes || b in SignInCodes)
    ensures AuthErrorMapper(b) == Messages[i] ==> b == Codes[i]
  {
    if b in Codes {
      var j :| 0 <= j < |Codes| && Codes[j] == b;
      MessagesDistinct();
      assert i != j ==> Messages[i] != Messages[j];
    } else {
      assert |Messages[i]| > |SigningIn|;
    }
  }

  lemma MessagesDistinct()
    ensures forall i, j :: 0 <= i < j < |Messages| ==> Messages[i] != Messages[j]
  {
    // the messages differ in length, except two that differ at position 17
    assert Messages[2][17] != Messages[3][17];
  }
}
