/** AuthService's student side: the normalisers, the Brazilian CPF check-digit rule
    (módulo 11), self-registration and the first-access password change. */
module Auth {
  import opened Common
  import opened Store
  import opened Text
  import opened Students

  // ------------------------------------------------------------------ normalisers

  /** `.replace(/\D/g, '')`: the decimal digits, in order. */
  function KeepDigits(s: string): (r: string)
    ensures AllDigits(r) && |r| <= |s|
    ensures AllDigits(s) ==> r == s
    ensures |s| == 1 ==> r == (if IsDigit(s[0]) then s else [])
  {
    if s == [] then []
    else (if IsDigit(s[0]) then [s[0]] else []) + KeepDigits(s[1..])
  }

  /** The filter works character by character: it distributes over concatenation. */
  lemma {:induction false} KeepDigitsAppend(a: string, b: string)
    ensures KeepDigits(a + b) == KeepDigits(a) + KeepDigits(b)
    decreases |a|
  {
    if a != [] {
      assert (a + b)[1..] == a[1..] + b;
      KeepDigitsAppend(a[1..], b);
    } else {
      assert a + b == b;
    }
  }

  /** Whitespace holds no digit. */
  lemma {:induction false} KeepDigitsOfSpace(s: string)
    requires AllSpace(s)
    ensures KeepDigits(s) == []
    decreases |s|
  {
    if s != [] {
      var tail := s[1..];
      assert forall i :: 0 <= i < |tail| ==> IsSpace(tail[i]);
      KeepDigitsOfSpace(tail);
    }
  }

  /** normalizeCpf: `(value || '').trim().replace(/\D/g, '')`. The trim removes
      only whitespace, which the digit filter drops anyway. */
  function NormalizeCpf(value: string): (r: string)
    ensures AllDigits(r) && |r| <= |value|
    ensures r == KeepDigits(value)
  {
    TrimIsInvisible(value);
    KeepDigits(Trim(value))
  }

  /** Keeping the digits of the trimmed value keeps the digits of the value. */
  lemma TrimIsInvisible(value: string)
    ensures KeepDigits(Trim(value)) == KeepDigits(value)
  {
    var lead, trail := TrimSplit(value);
    DigitsBetweenSpaces(lead, Trim(value), trail);
  }

  /** Whitespace around a string adds no digit to it. */
  lemma DigitsBetweenSpaces(lead: string, t: string, trail: string)
    requires AllSpace(lead) && AllSpace(trail)
    ensures KeepDigits(lead + t + trail) == KeepDigits(t)
  {
    KeepDigitsAppend(lead + t, trail);
    KeepDigitsAppend(lead, t);
    KeepDigitsOfSpace(lead);
    KeepDigitsOfSpace(trail);
  }

  /** A digit string is its own trim: it has no whitespace at either end. */
  lemma DigitsAreTrimmed(s: string)
    requires AllDigits(s)
    ensures Trim(s) == s
  {
    TrimOfTrimmed(s);
  }

  lemma NormalizeCpfIdempotent(value: string)
    ensures NormalizeCpf(NormalizeCpf(value)) == NormalizeCpf(value)
  {
    DigitsAreTrimmed(NormalizeCpf(value));
  }

  // ------------------------------------------------------------------ CPF

  function DigitValue(c: char): (v: nat)
    requires IsDigit(c)
    ensures v <= 9
  {
    c as int - '0' as int
  }

  /** `sum(Number(base[i]) * (factor - i))`; every weight is positive. */
  function WeightedSum(base: string, factor: int): (t: nat)
    requires AllDigits(base) && |base| <= factor
  {
    if base == [] then 0
    else
      var init := base[..|base| - 1];
      assert AllDigits(init) by {
        forall i | 0 <= i < |init| ensures IsDigit(init[i]) {
          assert init[i] == base[i];
        }
      }
      var d: nat, w: nat := DigitValue(base[|base| - 1]), factor - (|base| - 1);
      WeightedSum(init, factor) + d * w
  }

  /** The módulo-11 check digit of a weighted sum: 0 when the remainder is below 2,
      else 11 minus the remainder; always a decimal digit. */
  function CheckDigitOf(total: nat): (d: nat)
    ensures d <= 9
    ensures d == 0 <==> total % 11 < 2
    ensures d != 0 ==> (total + d) % 11 == 0
  {
    var m := total % 11;
    if m < 2 then 0 else 11 - m
  }

  /** `calc(base, factor)`: the loop accumulating the weighted sum. */
  method CheckDigit(base: string, factor: int) returns (d: nat)
    requires AllDigits(base) && |base| <= factor
    ensures d == CheckDigitOf(WeightedSum(base, factor))
  {
    var total: nat := 0;
    var i := 0;
    while i < |base|
      invariant 0 <= i <= |base|
      invariant total == WeightedSum(base[..i], factor)
    {
      assert base[..i + 1][..i] == base[..i];
      assert WeightedSum(base[..i + 1], factor) == WeightedSum(base[..i], factor) + DigitValue(base[i]) * (factor - i);
      total := total + DigitValue(base[i]) * (factor - i);
      i := i + 1;
    }
    assert base[..|base|] == base;
    var m := total % 11;
    d := if m < 2 then 0 else 11 - m;
  }

  /** `/^(\d)\1{10}$/`: eleven copies of one digit. */
  predicate Repeated(cpf: string)
    requires AllDigits(cpf)
  {
    |cpf| == 11 && forall i :: 0 <= i < 11 ==> cpf[i] == cpf[0]
  }

  /** The CPF rule: eleven digits, not all the same, whose tenth digit is the check
      digit of the first nine (weights 10..2) and whose eleventh is the check digit of
      the first ten (weights 11..2). */
  predicate CpfValid(cpf: string)
    requires AllDigits(cpf)
  {
    && |cpf| == 11
    && !Repeated(cpf)
    && CheckDigitOf(WeightedSum(cpf[..9], 10)) == DigitValue(cpf[9])
    && CheckDigitOf(WeightedSum(cpf[..10], 11)) == DigitValue(cpf[10])
  }

  /** isValidCpf, on the digit strings normalizeCpf produces. */
  method IsValidCpf(cpf: string) returns (ok: bool)
    requires AllDigits(cpf)
    ensures ok == CpfValid(cpf)
    ensures ok ==> |cpf| == 11 && exists i :: 0 <= i < 11 && cpf[i] != cpf[0]
  {
    if |cpf| != 11 {
      return false;
    }
    if forall i :: 0 <= i < 11 ==> cpf[i] == cpf[0] {
      return false;
    }
    var d1 := CheckDigit(cpf[..9], 10);
    var d2 := CheckDigit(cpf[..10], 11);
    ok := d1 == DigitValue(cpf[9]) && d2 == DigitValue(cpf[10]);
  }

  /** The two weighted sums of 529.982.247-25. */
  lemma SumsOfValidExample()
    ensures WeightedSum("529982247", 10) == 295
    ensures WeightedSum("5299822472", 11) == 347
  {
    TenDigitSumOfValidExample();
    assert WeightedSum("5", 10) == 50;
    assert "52"[..1] == "5";
    assert WeightedSum("52", 10) == 68;
    assert "529"[..2] == "52";
    assert WeightedSum("529", 10) == 140;
    assert "5299"[..3] == "529";
    assert WeightedSum("5299", 10) == 203;
    assert "52998"[..4] == "5299";
    assert WeightedSum("52998", 10) == 251;
    assert "529982"[..5] == "52998";
    assert WeightedSum("529982", 10) == 261;
    assert "5299822"[..6] == "529982";
    assert WeightedSum("5299822", 10) == 269;
    assert "52998224"[..7] == "5299822";
    assert WeightedSum("52998224", 10) == 281;
    assert "529982247"[..8] == "52998224";
    assert WeightedSum("529982247", 10) == 295;
  }

  lemma TenDigitSumOfValidExample()
    ensures WeightedSum("5299822472", 11) == 347
  {
    TenDigitSumOfValidHead();
    assert "529982"[..5] == "52998";
    assert WeightedSum("529982", 11) == 296;
    assert "5299822"[..6] == "529982";
    assert WeightedSum("5299822", 11) == 306;
    assert "52998224"[..7] == "5299822";
    assert WeightedSum("52998224", 11) == 322;
    assert "529982247"[..8] == "52998224";
    assert WeightedSum("529982247", 11) == 343;
    assert "5299822472"[..9] == "529982247";
    assert WeightedSum("5299822472", 11) == 347;
  }

  /** 529.982.247-25 is a valid CPF, and changing its last digit invalidates it. */
  lemma ValidCpfExample()
    ensures CpfValid("52998224725")
    ensures !CpfValid("52998224726")
  {
    SumsOfValidExample();
    assert "52998224725"[..9] == "529982247";
    assert "52998224725"[..10] == "5299822472";
    assert "52998224726"[..10] == "5299822472";
    assert "52998224725"[1] != "52998224725"[0];
  }

  /** The two weighted sums of 111.111.111-11. */
  lemma SumsOfRepeatedExample()
    ensures WeightedSum("111111111", 10) == 54
    ensures WeightedSum("1111111111", 11) == 65
  {
    TenDigitSumOfRepeatedExample();
    assert WeightedSum("1", 10) == 10;
    assert "11"[..1] == "1";
    assert WeightedSum("11", 10) == 19;
    assert "111"[..2] == "11";
    assert WeightedSum("111", 10) == 27;
    assert "1111"[..3] == "111";
    assert WeightedSum("1111", 10) == 34;
    assert "11111"[..4] == "1111";
    assert WeightedSum("11111", 10) == 40;
    assert "111111"[..5] == "11111";
    assert WeightedSum("111111", 10) == 45;
    assert "1111111"[..6] == "111111";
    assert WeightedSum("1111111", 10) == 49;
    assert "11111111"[..7] == "1111111";
    assert WeightedSum("11111111", 10) == 52;
    assert "111111111"[..8] == "11111111";
    assert WeightedSum("111111111", 10) == 54;
  }

  lemma TenDigitSumOfValidHead()
    ensures WeightedSum("52998", 11) == 284
  {
    assert WeightedSum("5", 11) == 55;
    assert "52"[..1] == "5";
    assert WeightedSum("52", 11) == 75;
    assert "529"[..2] == "52";
    assert WeightedSum("529", 11) == 156;
    assert "5299"[..3] == "529";
    assert WeightedSum("5299", 11) == 228;
    assert "52998"[..4] == "5299";
  }

  lemma TenDigitSumOfRepeatedExample()
    ensures WeightedSum("1111111111", 11) == 65
  {
    assert WeightedSum("1", 11) == 11;
    assert "11"[..1] == "1";
    assert WeightedSum("11", 11) == 21;
    assert "111"[..2] == "11";
    assert WeightedSum("111", 11) == 30;
    assert "1111"[..3] == "111";
    assert WeightedSum("1111", 11) == 38;
    assert "11111"[..4] == "1111";
    assert WeightedSum("11111", 11) == 45;
    assert "111111"[..5] == "11111";
    assert WeightedSum("111111", 11) == 51;
    assert "1111111"[..6] == "111111";
    assert WeightedSum("1111111", 11) == 56;
    assert "11111111"[..7] == "1111111";
    assert WeightedSum("11111111", 11) == 60;
    assert "111111111"[..8] == "11111111";
    assert WeightedSum("111111111", 11) == 63;
    assert "1111111111"[..9] == "111111111";
    assert WeightedSum("1111111111", 11) == 65;
  }

  /** 111.111.111-11 satisfies both check digits and is refused only by the
      repeated-digit rule. */
  lemma RepeatedCpfExample()
    ensures CheckDigitOf(WeightedSum("111111111", 10)) == 1
    ensures CheckDigitOf(WeightedSum("1111111111", 11)) == 1
    ensures !CpfValid("11111111111")
  {
    SumsOfRepeatedExample();
    assert Repeated("11111111111");
  }

  // ------------------------------------------------------------------ registration

  /** StudentRegisterDto; absent fields are the empty string. */
  datatype Registration = Registration(fullName: string, email: string, cpf: string, password: string, companyName: string)

  const DEFAULT_STUDENT_PASSWORD: string := "123456"

  /** The refusals of registerStudent, in the order they are checked; all are
      answered as BadRequest. */
  datatype RegisterError =
    | NameMissing | EmailMissing | InvalidCpf | ShortPassword
    | EmailInUse | CpfInUse | UnknownCompany | NoDefaultCompany | DefaultCompanyMissing
  {
    function Kind(): Exception { BadRequest }

    /** The four checks on the request itself. */
    predicate IsInputError() {
      this == NameMissing || this == EmailMissing || this == InvalidCpf || this == ShortPassword
    }
  }

  /** `normalizeString(dto.password || '') || DEFAULT_STUDENT_PASSWORD`: a blank
      password becomes the default. */
  function PasswordOf(password: string): (p: string)
    ensures Trim(password) != [] ==> p == Trim(password)
    ensures Trim(password) == [] ==> p == DEFAULT_STUDENT_PASSWORD && |p| == 6
  {
    if Trim(password) != [] then Trim(password) else DEFAULT_STUDENT_PASSWORD
  }

  predicate CpfTaken(students: map<Id, Student>, cpf: string) {
    exists id :: id in students && students[id].cpf == Some(cpf)
  }

  /** `name: { equals, mode: 'insensitive' }`, over ASCII. */
  predicate HasCompanyLike(companies: map<Id, string>, name: string) {
    exists id :: id in companies && ToLower(companies[id]) == ToLower(name)
  }

  /** The checks on the request, in order: name, e-mail, CPF, password. */
  function InputCheck(dto: Registration): (e: Option<RegisterError>)
    ensures e.Some? ==> e.value.IsInputError()
  {
    if Trim(dto.fullName) == [] then Some(NameMissing)
    else if NormalizeEmail(dto.email) == [] then Some(EmailMissing)
    else if !CpfValid(NormalizeCpf(dto.cpf)) then Some(InvalidCpf)
    else if |PasswordOf(dto.password)| < 6 then Some(ShortPassword)
    else None
  }

  /** The checks against the store, in order: duplicate e-mail, duplicate CPF, then
      the company (by case-insensitive name, or the DEFAULT_COMPANY_ID setting `env`,
      "" when unset). */
  function LookupCheck(
    students: map<Id, Student>, companies: map<Id, string>, email: string, cpf: string, companyName: string, env: string)
    : (e: Option<RegisterError>)
    ensures e.Some? ==> !e.value.IsInputError()
  {
    if EmailTaken(students, email) then Some(EmailInUse)
    else if CpfTaken(students, cpf) then Some(CpfInUse)
    else if companyName != [] then
      if HasCompanyLike(companies, companyName) then None else Some(UnknownCompany)
    else if env == [] then Some(NoDefaultCompany)
    else if env !in companies then Some(DefaultCompanyMissing)
    else None
  }

  /** registerStudent's refusals: every input check before any lookup. */
  function RegisterCheck(students: map<Id, Student>, companies: map<Id, string>, dto: Registration, env: string)
    : (e: Option<RegisterError>)
  {
    if InputCheck(dto).Some? then InputCheck(dto)
    else LookupCheck(students, companies, NormalizeEmail(dto.email), NormalizeCpf(dto.cpf), Trim(dto.companyName), Trim(env))
  }

  /** The input checks come before any lookup: when one of them refuses, the
      refusal is the same whatever the store holds. */
  lemma InputChecksIgnoreStore(
    s1: map<Id, Student>, c1: map<Id, string>, s2: map<Id, Student>, c2: map<Id, string>,
    dto: Registration, env: string)
    requires RegisterCheck(s1, c1, dto, env).Some? && RegisterCheck(s1, c1, dto, env).value.IsInputError()
    ensures RegisterCheck(s2, c2, dto, env) == RegisterCheck(s1, c1, dto, env)
  {
  }

  /** A duplicate e-mail is reported even when the CPF is also taken. */
  lemma EmailBeforeCpf(students: map<Id, Student>, companies: map<Id, string>, dto: Registration, env: string)
    requires InputCheck(dto).None?
    requires EmailTaken(students, NormalizeEmail(dto.email)) && CpfTaken(students, NormalizeCpf(dto.cpf))
    ensures RegisterCheck(students, companies, dto, env) == Some(EmailInUse)
  {
  }

  /** The refusals in order, and the company a successful registration joins. */
  method CheckRegister(db: Db, dto: Registration, env: string) returns (refusal: Option<RegisterError>, companyId: Id)
    ensures refusal == RegisterCheck(db.students, db.companies, dto, env)
    ensures refusal.None? ==> companyId in db.companies
    ensures refusal.None? && Trim(dto.companyName) != [] ==> ToLower(db.companies[companyId]) == ToLower(Trim(dto.companyName))
    ensures refusal.None? && Trim(dto.companyName) == [] ==> companyId == Trim(env)
  {
    companyId := "";
    var fullName := Trim(dto.fullName);
    var email := NormalizeEmail(dto.email);
    var cpf := NormalizeCpf(dto.cpf);
    var companyName := Trim(dto.companyName);
    if fullName == [] {
      return Some(NameMissing), companyId;
    }
    if email == [] {
      return Some(EmailMissing), companyId;
    }
    var cpfOk := IsValidCpf(cpf);
    if cpf == [] || |cpf| != 11 || !cpfOk {
      return Some(InvalidCpf), companyId;
    }
    if |PasswordOf(dto.password)| < 6 {
      return Some(ShortPassword), companyId;
    }
    if EmailTaken(db.students, email) {
      return Some(EmailInUse), companyId;
    }
    if CpfTaken(db.students, cpf) {
      return Some(CpfInUse), companyId;
    }
    if companyName != [] {
      if !HasCompanyLike(db.companies, companyName) {
        return Some(UnknownCompany), companyId;
      }
      companyId :| companyId in db.companies && ToLower(db.companies[companyId]) == ToLower(companyName);
    } else {
      companyId := Trim(env);
      if companyId == [] {
        return Some(NoDefaultCompany), companyId;
      }
      if companyId !in db.companies {
        return Some(DefaultCompanyMissing), companyId;
      }
    }
    refusal := None;
  }

  /** The row registerStudent inserts: active, with the chosen password and no forced
      change. */
  function RegisteredStudent(dto: Registration, companyId: Id): (s: Student)
    ensures s.fullName == Trim(dto.fullName) && s.email == NormalizeEmail(dto.email)
    ensures s.cpf == Some(NormalizeCpf(dto.cpf)) && s.password == PasswordOf(dto.password)
    ensures s.isActive && !s.mustChangePassword && s.companyId == companyId
  {
    Student(Trim(dto.fullName), NormalizeEmail(dto.email), Some(NormalizeCpf(dto.cpf)), PasswordOf(dto.password), true, false, companyId)
  }

  /** registerStudent up to the token: a refusal writes nothing; otherwise the student
      row is inserted. */
  method RegisterStudent(db: Db, dto: Registration, env: string, studentId: Id) returns (r: Result<Student, RegisterError>)
    requires studentId !in db.students
    modifies db`students
    ensures RegisterCheck(old(db.students), db.companies, dto, env).Some? ==>
      r == Err(RegisterCheck(old(db.students), db.companies, dto, env).value) && db.students == old(db.students)
    ensures RegisterCheck(old(db.students), db.companies, dto, env).None? ==>
      && r.Ok?
      && r.value == RegisteredStudent(dto, r.value.companyId)
      && r.value.companyId in db.companies
      && db.students == old(db.students)[studentId := r.value]
  {
    var refusal, companyId := CheckRegister(db, dto, env);
    if refusal.Some? {
      return Err(refusal.value);
    }
    var row := RegisteredStudent(dto, companyId);
    db.students := db.students[studentId := row];
    return Ok(row);
  }

  /** A successful registration keeps e-mails unique and the new CPF well formed. */
  lemma RegisterKeepsEmailsUnique(students: map<Id, Student>, companies: map<Id, string>, dto: Registration, env: string, studentId: Id, companyId: Id)
    requires EmailsUnique(students) && studentId !in students
    requires RegisterCheck(students, companies, dto, env).None?
    ensures EmailsUnique(students[studentId := RegisteredStudent(dto, companyId)])
    ensures |NormalizeCpf(dto.cpf)| == 11 && CpfValid(NormalizeCpf(dto.cpf))
  {
    AddKeepsEmailsUnique(students, studentId, RegisteredStudent(dto, companyId));
  }

  // ------------------------------------------------------------------ password change

  /** changeStudentPassword: a trimmed password shorter than 6 is refused; otherwise
      the student gets it and no longer has to change it. A missing student is a
      store error. */
  method ChangeStudentPassword(db: Db, studentId: Id, newPassword: string) returns (r: Result<bool, Exception>)
    modifies db`students
    ensures |Trim(newPassword)| < 6 ==> r == Err(BadRequest) && db.students == old(db.students)
    ensures |Trim(newPassword)| >= 6 && studentId !in old(db.students) ==>
      r == Err(Internal) && db.students == old(db.students)
    ensures |Trim(newPassword)| >= 6 && studentId in old(db.students) ==>
      && r == Ok(true)
      && db.students == old(db.students)[studentId :=
           old(db.students)[studentId].(password := Trim(newPassword), mustChangePassword := false)]
  {
    var pwd := Trim(newPassword);
    if |pwd| < 6 {
      return Err(BadRequest);
    }
    if studentId !in db.students {
      return Err(Internal);
    }
    db.students := db.students[studentId := db.students[studentId].(password := pwd, mustChangePassword := false)];
    return Ok(true);
  }
}
