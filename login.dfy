/** The login screen (components/Login.tsx): a role selector, then the
    teacher's or the student's form, whose submit checks that no field is
    blank and hands the trimmed fields to the application. */
module Login {
  import opened Types
  import opened Text
  import opened Collections

  /** `TeacherForm.handleSubmit`: refused (an alert) when the name or the
      class is blank; otherwise a teacher with both fields trimmed. */
  function TeacherFormSubmit(name: string, className: string): (r: Option<LoginInfo>)
    ensures r.None? <==> Trim(name) == "" || Trim(className) == ""
    ensures r.Some? ==> r.value.TeacherLogin? && r.value.Role() == TEACHER
    ensures r.Some? ==> r.value.name == Trim(name) && r.value.className == Trim(className)
  {
    if Trim(name) == "" || Trim(className) == "" then None
    else Some(TeacherLogin(Trim(name), Trim(className)))
  }

  /** `StudentForm.handleSubmit`: refused when any of the three fields is
      blank; otherwise a student with the three fields trimmed (the counters
      are the application's to fill in). */
  function StudentFormSubmit(name: string, className: string, teacherName: string): (r: Option<LoginInfo>)
    ensures r.None? <==> Trim(name) == "" || Trim(className) == "" || Trim(teacherName) == ""
    ensures r.Some? ==> r.value.StudentLogin? && r.value.Role() == STUDENT
    ensures r.Some? ==>
      r.value.name == Trim(name) && r.value.className == Trim(className) && r.value.teacherName == Trim(teacherName)
  {
    if Trim(name) == "" || Trim(className) == "" || Trim(teacherName) == "" then None
    else Some(StudentLogin(Trim(name), Trim(className), Trim(teacherName)))
  }

  /** What a form hands over is already clean: no field is empty or starts
      or ends with white space, so submitting those values again gives the
      same record. */
  lemma SubmittedFieldsAreClean(name: string, className: string, teacherName: string)
    ensures var r := TeacherFormSubmit(name, className);
      r.Some? ==>
        r.value.name != "" && !IsSpace(r.value.name[0]) && !IsSpace(r.value.name[|r.value.name| - 1]) &&
        TeacherFormSubmit(r.value.name, r.value.className) == r
    ensures var r := StudentFormSubmit(name, className, teacherName);
      r.Some? ==>
        r.value.teacherName != "" && !IsSpace(r.value.teacherName[0]) &&
        StudentFormSubmit(r.value.name, r.value.className, r.value.teacherName) == r
  {
    TrimShape(name);
    TrimShape(teacherName);
    TrimIdempotent(name);
    TrimIdempotent(className);
    TrimIdempotent(teacherName);
  }

  /** The browser refuses a form whose `required` fields (the teacher's
      name and class, the student's name and teacher name) hold nothing. The
      handlers' own check already refuses those values, so the browser's
      check changes no outcome. */
  lemma RequiredFieldsAreSubsumed(name: string, className: string, teacherName: string)
    ensures name == "" || className == "" ==> TeacherFormSubmit(name, className).None?
    ensures name == "" || teacherName == "" ==> StudentFormSubmit(name, className, teacherName).None?
  {
  }

  const Letters: seq<char> := ['A', 'B', 'C', 'D']

  /** Option `i` of the class select: grade `i / 4 + 1`, letter `i % 4`. */
  function ClassOption(i: nat): (r: string)
    requires i < 20
    ensures |r| == 6 && r[..4] == "Lớp "
    ensures r[4] == ('1' as int + i / 4) as char && '1' <= r[4] <= '5'
    ensures r[5] == Letters[i % 4] && r[5] in Letters
  {
    "Lớp " + [('1' as int + i / 4) as char] + [Letters[i % 4]]
  }

  /** The class select: `Lớp 1A` … `Lớp 1D`, then grade 2, up to `Lớp 5D`. */
  function ClassOptions(): (r: seq<string>)
    ensures |r| == 20 && forall i :: 0 <= i < 20 ==> r[i] == ClassOption(i)
  {
    seq(20, i requires 0 <= i < 20 => ClassOption(i))
  }

  const DefaultClass: string := "Lớp 4A"

  /** The twenty options are distinct, none is blank, and the form's initial
      class is one of them (the first of grade 4). */
  lemma ClassOptionsFacts()
    ensures NoDup(ClassOptions())
    ensures forall i :: 0 <= i < 20 ==> Trim(ClassOptions()[i]) != ""
    ensures ClassOptions()[12] == DefaultClass
  {
    var r := ClassOptions();
    forall i, j | 0 <= i < j < 20
      ensures r[i] != r[j]
    {
      if i / 4 == j / 4 {
        assert i % 4 != j % 4;
        assert r[i][5] != r[j][5];
      } else {
        assert r[i][4] != r[j][4];
      }
    }
    forall i | 0 <= i < 20
      ensures Trim(r[i]) != ""
    {
      assert r[i][0] == 'L';
      assert !AllSpace(r[i]);
      TrimEmptyIffAllSpace(r[i]);
    }
    assert ClassOption(12) == "Lớp " + ['4'] + ['A'];
  }

  /** The login screen. `selectedRole` chooses what is shown; the fields of
      the form shown are its own state, and start afresh each time a form is
      shown. */
  class LoginScreen {
    var selectedRole: Option<ViewMode>
    var name: string
    var className: string
    var teacherName: string

    constructor ()
      ensures selectedRole == None
      ensures name == "" && className == "" && teacherName == ""
    {
      selectedRole := None;
      name, className, teacherName := "", "", "";
    }

    /** A role button: the matching form appears with its initial fields
        (the student's class preset to `Lớp 4A`). */
    method Select(mode: ViewMode)
      modifies this
      ensures selectedRole == Some(mode)
      ensures name == "" && teacherName == ""
      ensures className == (if mode == STUDENT then DefaultClass else "")
    {
      selectedRole := Some(mode);
      name, teacherName := "", "";
      className := if mode == STUDENT then DefaultClass else "";
    }

    /** The back arrow: the role selector again. */
    method Back()
      modifies this`selectedRole
      ensures selectedRole == None
    {
      selectedRole := None;
    }

    /** Typing into one of the form's fields. */
    method Edit(newName: string, newClassName: string, newTeacherName: string)
      modifies this`name, this`className, this`teacherName
      ensures name == newName && className == newClassName && teacherName == newTeacherName
    {
      name, className, teacherName := newName, newClassName, newTeacherName;
    }

    /** The submit of the form shown: the record handed to the application,
        or none when a field is blank or no form is shown. */
    method Submit() returns (r: Option<LoginInfo>)
      ensures selectedRole == None ==> r == None
      ensures selectedRole == Some(TEACHER) ==> r == TeacherFormSubmit(name, className)
      ensures selectedRole == Some(STUDENT) ==> r == StudentFormSubmit(name, className, teacherName)
      ensures r.Some? ==> Some(r.value.Role()) == selectedRole
    {
      match selectedRole
      case None => r := None;
      case Some(TEACHER) => r := TeacherFormSubmit(name, className);
      case Some(STUDENT) => r := StudentFormSubmit(name, className, teacherName);
    }
  }
}
