/** The registration form: the per-keystroke filters on the name and phone
    fields, the ordered checks made on submit, the request it sends and the
    page shown after a successful registration.
    Line numbers in the comments below refer to frontend/src/pages/auth/Signup.jsx. */
module Signup {
  import opened Wrappers
  import opened Strings

  datatype Field = Name | Email | Password | ConfirmPassword | RoleField | StudentId | Department | Phone

  /** The form's `formData`. */
  datatype Form = Form(
    name: string, email: string, password: string, confirmPassword: string, role: string,
    studentId: string, department: string, phone: string)

  function InitialForm(): (f: Form)
    ensures f.role == "student" && f.name == "" && f.phone == "" && f.password == ""
  {
    Form("", "", "", "", "student", "", "", "")
  }

  /** `{ ...formData, [name]: value }`. */
  function Set(f: Form, field: Field, value: string): Form
  {
    match field
    case Name => f.(name := value)
    case Email => f.(email := value)
    case Password => f.(password := value)
    case ConfirmPassword => f.(confirmPassword := value)
    case RoleField => f.(role := value)
    case StudentId => f.(studentId := value)
    case Department => f.(department := value)
    case Phone => f.(phone := value)
  }

  /** Lines 23-45: a name with a digit is turned away, a phone value is reduced to its
      digits and turned away beyond ten of them, every other field takes the value. */
  function Changed(f: Form, field: Field, value: string): (g: Form)
    ensures field == Name && HasDigit(value) ==> g == f
    ensures field == Phone && |Digits(value)| > 10 ==> g == f
    ensures field == Phone && |Digits(value)| <= 10 ==> g == f.(phone := Digits(value))
    ensures field != Phone && !(field == Name && HasDigit(value)) ==> g == Set(f, field, value)
  {
    if field == Name && HasDigit(value) then f
    else if field == Phone then
      var digits := Digits(value);
      if |digits| > 10 then f else f.(phone := digits)
    else Set(f, field, value)
  }

  /** What typing can produce: a name without digits and a phone of at most ten digits. */
  predicate Typed(f: Form)
  {
    !HasDigit(f.name) && AllDigits(f.phone) && |f.phone| <= 10
  }

  /** Every keystroke keeps the form typed, starting from the initial form. */
  lemma ChangedKeepsTyped(f: Form, field: Field, value: string)
    requires Typed(f)
    ensures Typed(Changed(f, field, value))
  {
  }

  lemma InitialFormTyped()
    ensures Typed(InitialForm())
  {
    assert !HasDigit("");
  }

  /** The body of `POST /auth/register`; the student id is present only for students. */
  datatype Registration = Registration(
    name: string, email: string, password: string, role: string, studentId: Option<string>,
    department: string, phone: string)

  datatype SubmitOutcome =
    | NameHasDigits
    | PhoneNotTenDigits
    | PasswordTooShort
    | PasswordsDiffer
    | Register(request: Registration)

  /** Lines 52-87: the checks in order, the first failure stopping the submission. */
  function Submit(f: Form): (o: SubmitOutcome)
    ensures o.Register? <==>
      (!HasDigit(f.name) && (f.phone == "" || |Digits(f.phone)| == 10) &&
       |f.password| >= 8 && f.password == f.confirmPassword)
    ensures o == NameHasDigits <==> HasDigit(f.name)
    ensures o == PhoneNotTenDigits <==> !HasDigit(f.name) && f.phone != "" && |Digits(f.phone)| != 10
    ensures o == PasswordTooShort ==> !HasDigit(f.name) && |f.password| < 8
    ensures o == PasswordsDiffer ==> |f.password| >= 8 && f.password != f.confirmPassword
    ensures o.Register? ==> (o.request.studentId.Some? <==> f.role == "student")
    ensures o.Register? ==> o.request.name == f.name && o.request.password == f.password && o.request.phone == f.phone
  {
    if HasDigit(f.name) then NameHasDigits
    else if f.phone != "" && |Digits(f.phone)| != 10 then PhoneNotTenDigits
    else if |f.password| < 8 then PasswordTooShort
    else if f.password != f.confirmPassword then PasswordsDiffer
    else Register(Registration(f.name, f.email, f.password, f.role,
                               if f.role == "student" then Some(f.studentId) else None,
                               f.department, f.phone))
  }

  /** A form filled by typing never fails the name check, and its phone check is the
      plain length test on what is stored. */
  lemma TypedFormChecks(f: Form)
    requires Typed(f)
    ensures Submit(f) != NameHasDigits
    ensures Submit(f) == PhoneNotTenDigits <==> f.phone != "" && |f.phone| != 10
  {
    DigitsOfDigits(f.phone);
  }

  /** Lines 91-96: the page shown once the server answers. */
  function LandingPage(userRole: string): (path: string)
    ensures userRole == "faculty" <==> path == "/faculty"
    ensures path == "/faculty" || path == "/student"
  {
    if userRole == "faculty" then "/faculty" else "/student"
  }

  /** The form component's state. */
  class SignupForm {
    var form: Form
    var loading: bool

    constructor ()
      ensures form == InitialForm() && !loading
    {
      form := InitialForm();
      loading := false;
    }

    /** `onChange`. */
    method OnChange(field: Field, value: string)
      modifies this
      ensures form == Changed(old(form), field, value) && loading == old(loading)
      ensures old(Typed(form)) ==> Typed(form)
    {
      if field == Name && HasDigit(value) {
        return;
      }
      if field == Phone {
        var digits := Digits(value);
        if |digits| > 10 {
          return;
        }
        form := form.(phone := digits);
        return;
      }
      form := Set(form, field, value);
    }

    /** `onSubmit` up to the request: a failed check clears `loading` again, a passing one
        leaves it set while the request is under way. */
    method OnSubmit() returns (o: SubmitOutcome)
      modifies this
      ensures o == Submit(form) && form == old(form)
      ensures loading <==> o.Register?
    {
      loading := true;
      if HasDigit(form.name) {
        loading := false;
        return NameHasDigits;
      }
      if form.phone != "" && |Digits(form.phone)| != 10 {
        loading := false;
        return PhoneNotTenDigits;
      }
      if |form.password| < 8 {
        loading := false;
        return PasswordTooShort;
      }
      if form.password != form.confirmPassword {
        loading := false;
        return PasswordsDiffer;
      }
      o := Register(Registration(form.name, form.email, form.password, form.role,
                                 if form.role == "student" then Some(form.studentId) else None,
                                 form.department, form.phone));
    }
  }
}
