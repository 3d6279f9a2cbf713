/** The contact form's submit handler (script.js, lines 41-73) and the
    single-message rule of `showFormMessage` (lines 205-229). Validation is a
    pure function of the four field values; the form, with its field values
    and the `.form-message` elements it holds, is an object the handler
    updates in place. */
module ContactForm {
  import opened EmailPattern

  /** The four values read from the form's `FormData`. */
  datatype Fields = Fields(nombre: string, telefono: string, email: string, mensaje: string)

  /** What a submit attempt ends in. */
  datatype Outcome = ErrorEmpty | ErrorEmail | Success

  /** A `.form-message` element: its text, its type (the second class name)
      and a serial number that stands for the element's identity. */
  datatype FormMessage = FormMessage(text: string, kind: string, serial: nat)

  const EmptyFieldsText := "Por favor, completa todos los campos."
  const InvalidEmailText := "Por favor, ingresa un correo electrónico válido."
  const SuccessText := "¡Gracias por tu consulta! Nos pondremos en contacto contigo pronto."

  /** What `reset()` leaves in the four fields. */
  const ClearedFields := Fields("", "", "", "")

  /** `!x` in JavaScript: only the empty string is falsy; nothing is trimmed. */
  predicate AnyEmpty(f: Fields) {
    f.nombre == "" || f.telefono == "" || f.email == "" || f.mensaje == ""
  }

  /** The two checks of the submit handler, in the source's order: emptiness
      first, then the e-mail pattern. */
  function Validate(f: Fields): (r: Outcome)
    ensures r == ErrorEmpty <==> AnyEmpty(f)
    ensures r == ErrorEmail <==> !AnyEmpty(f) && !MatchesEmailRegex(f.email)
    ensures r == Success <==> !AnyEmpty(f) && MatchesEmailRegex(f.email)
  {
    ValidIffRegex(f.email);
    if AnyEmpty(f) then ErrorEmpty
    else if !IsValidEmail(f.email) then ErrorEmail
    else Success
  }

  /** The text shown for each outcome. */
  function MessageText(o: Outcome): (text: string) {
    match o
    case ErrorEmpty => EmptyFieldsText
    case ErrorEmail => InvalidEmailText
    case Success => SuccessText
  }

  /** The type passed to `showFormMessage` for each outcome. */
  function MessageKind(o: Outcome): (kind: string) {
    if o == Success then "success" else "error"
  }

  class Form {
    var fields: Fields
    /** The `.form-message` elements in the document, in document order. */
    var messages: seq<FormMessage>
    /** The serial number the next created element receives. */
    var nextSerial: nat

    /** At most one message element exists, and every element's serial was
        handed out already. */
    ghost predicate Valid()
      reads this
    {
      |messages| <= 1 &&
      forall k :: 0 <= k < |messages| ==> messages[k].serial < nextSerial
    }

    constructor (initial: Fields)
      ensures Valid()
      ensures fields == initial && messages == []
    {
      fields := initial;
      messages := [];
      nextSerial := 0;
    }

    /** `showFormMessage`: remove the first existing message element, if
        any, then insert a fresh one with the given text and type. */
    method ShowFormMessage(text: string, kind: string)
      modifies this
      ensures fields == old(fields)
      ensures nextSerial == old(nextSerial) + 1
      ensures messages == (if old(messages) == [] then [] else old(messages)[1..])
                          + [FormMessage(text, kind, old(nextSerial))]
      ensures old(Valid()) ==> Valid() && messages == [FormMessage(text, kind, old(nextSerial))]
    {
      if messages != [] {
        messages := messages[1..];
      }
      messages := messages + [FormMessage(text, kind, nextSerial)];
      nextSerial := nextSerial + 1;
    }

    /** The submit handler: validate, show exactly one message, and reset
        the fields only on success. */
    method Submit() returns (outcome: Outcome)
      requires Valid()
      modifies this
      ensures Valid()
      ensures outcome == Validate(old(fields))
      ensures messages == [FormMessage(MessageText(outcome), MessageKind(outcome), old(nextSerial))]
      ensures fields == if outcome == Success then ClearedFields else old(fields)
    {
      var f := fields;
      if f.nombre == "" || f.telefono == "" || f.email == "" || f.mensaje == "" {
        ShowFormMessage(EmptyFieldsText, "error");
        return ErrorEmpty;
      }
      if !IsValidEmail(f.email) {
        ShowFormMessage(InvalidEmailText, "error");
        return ErrorEmail;
      }
      ShowFormMessage(SuccessText, "success");
      fields := ClearedFields;
      return Success;
    }

    /** The expiry callback of a message element: it removes that element
        if it is still in the document; a newer message is left alone. */
    method ExpireMessage(serial: nat)
      requires Valid()
      modifies this`messages
      ensures Valid()
      ensures messages == if old(messages) != [] && old(messages)[0].serial == serial
                          then [] else old(messages)
    {
      if messages != [] && messages[0].serial == serial {
        messages := [];
      }
    }
  }

  /** The emptiness check runs first: an empty field is reported as such
      whatever the e-mail looks like. */
  lemma EmptyFieldWins(f: Fields)
    requires AnyEmpty(f)
    ensures Validate(f) == ErrorEmpty
    ensures MessageText(Validate(f)) == EmptyFieldsText
  {
  }

  /** Whitespace is not trimmed: fields made only of whitespace pass the
      emptiness check, and with a well-formed e-mail the submission
      succeeds. */
  lemma BlankFieldsAccepted(f: Fields)
    requires |f.nombre| > 0 && forall k :: 0 <= k < |f.nombre| ==> IsJsWhitespace(f.nombre[k])
    requires |f.telefono| > 0 && forall k :: 0 <= k < |f.telefono| ==> IsJsWhitespace(f.telefono[k])
    requires |f.mensaje| > 0 && forall k :: 0 <= k < |f.mensaje| ==> IsJsWhitespace(f.mensaje[k])
    requires MatchesEmailRegex(f.email)
    ensures Validate(f) == Success
  {
    assert f.email != "";
  }

  /** An address with a second `@` gives the invalid-e-mail error. */
  lemma TwoAtsRejected(f: Fields)
    requires !AnyEmpty(f) && Count(f.email, '@') >= 2
    ensures Validate(f) == ErrorEmail
  {
    ValidIffRegex(f.email);
    if IsValidEmail(f.email) {
      ValidEmailHasOneAt(f.email);
    }
  }

  /** The pattern's `\.` must have a character of the domain on each side: an
      address whose domain has a dot only as its first or last character, or
      no dot at all, gives the invalid-e-mail error. */
  lemma NoInteriorDotRejected(f: Fields)
    requires !AnyEmpty(f)
    requires forall k :: IndexOf(f.email, '@') + 1 < k < |f.email| - 1 ==> f.email[k] != '.'
    ensures Validate(f) == ErrorEmail
  {
    var s := f.email;
    var at := IndexOf(s, '@');
    if 0 < at < |s| && 3 <= |s| - (at + 1) {
      var d := s[at + 1..];
      var inner := d[1..|d| - 1];
      forall m | 0 <= m < |inner| ensures inner[m] != '.' {
        assert inner[m] == s[at + 2 + m];
      }
    }
    ValidIffRegex(s);
  }

  /** Whitespace anywhere in the address gives the invalid-e-mail error. */
  lemma WhitespaceRejected(f: Fields, k: nat)
    requires !AnyEmpty(f)
    requires k < |f.email| && IsJsWhitespace(f.email[k])
    ensures Validate(f) == ErrorEmail
  {
    var s := f.email;
    var at := IndexOf(s, '@');
    if k < at {
      assert s[..at][k] == s[k];
    } else if at < k {
      assert s[at + 1..][k - at - 1] == s[k];
    }
    ValidIffRegex(s);
  }

  /** The first run after the `@` may itself contain dots: a dot right after
      the `@` is accepted when another dot follows later in the domain. */
  lemma DotAfterAtAccepted()
    ensures Validate(Fields("Ana", "311", "ana@.x.co", "Hola")) == Success
  {
    SplitIsValid("ana@.x.co", 3, 6);
  }
}
