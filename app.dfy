/** The session store (App.tsx): the exercise catalogue, the topic list, the
    student roster and the logged-in user, with the handlers the screens
    call. `user` is a snapshot taken at login: updating the roster does not
    refresh it. */
module AppStore {
  import opened Types
  import opened Text
  import opened Collections

  const InitialExercises: seq<Exercise> := [
    Exercise("1", "Toán", "Lớp 1", "Cộng trong phạm vi 10", BASIC, "2 + 5 = ?", "7", "Hãy đếm ngón tay xem sao."),
    Exercise("2", "Toán", "Lớp 1", "Cộng trong phạm vi 10", BASIC, "8 + 1 = ?", "9", "Thêm 1 vào một số sẽ được số liền sau."),
    Exercise("3", "Tiếng Việt", "Lớp 3", "Phân biệt danh từ, động từ", INTERMEDIATE,
      "Trong câu \"Mẹ đang nấu cơm\", từ \"nấu\" là loại từ gì?", "Động từ", "Từ chỉ hoạt động của sự vật."),
    Exercise("4", "Toán", "Lớp 4", "Nhân số có hai chữ số", ADVANCED, "25 x 15 = ?", "375", "Bạn có thể tách 15 thành 10 + 5."),
    Exercise("5", "Tự nhiên & Xã hội", "Lớp 4", "Hệ mặt trời", INTERMEDIATE,
      "Hành tinh nào được mệnh danh là \"Hành tinh Đỏ\"?", "Sao Hỏa", "Đây là hành tinh thứ tư tính từ Mặt Trời."),
    Exercise("6", "Tự nhiên & Xã hội", "Lớp 5", "Sự sống", BASIC,
      "Thực vật cần gì để quang hợp?", "Ánh sáng mặt trời", "Quá trình này tạo ra năng lượng cho cây."),
    Exercise("7", "Lịch sử & Địa lí", "Lớp 4", "Lịch sử Việt Nam", BASIC,
      "Ai là người lãnh đạo cuộc khởi nghĩa Hai Bà Trưng?", "Trưng Trắc và Trưng Nhị", "Hai chị em gái quê ở Mê Linh."),
    Exercise("8", "Lịch sử & Địa lí", "Lớp 5", "Địa lí Việt Nam", INTERMEDIATE,
      "Thủ đô của Việt Nam là thành phố nào?", "Hà Nội", "Thành phố này nằm ở miền Bắc.")
  ]

  const InitialStudents: seq<Student> := [
    Student("Nguyễn Văn An", "Lớp 4A", "Cô Mai", 10, 13, 150),
    Student("Trần Thị Bình", "Lớp 4A", "Cô Mai", 15, 12, 120),
    Student("Lê Văn Cường", "Lớp 4A", "Cô Mai", 12, 12, 180),
    Student("Phạm Thị Dung", "Lớp 5B", "Thầy Hùng", 8, 11, 210),
    Student("Hoàng Văn Em", "Lớp 5B", "Thầy Hùng", 14, 10, 95)
  ]

  /** `exercises.map(ex => ex.topic)`. */
  function TopicsOf(exercises: seq<Exercise>): (r: seq<string>)
    ensures |r| == |exercises| && forall i :: 0 <= i < |r| ==> r[i] == exercises[i].topic
  {
    seq(|exercises|, i requires 0 <= i < |exercises| => exercises[i].topic)
  }

  /** `initialTopicsData`: the topics of the initial catalogue, each once, in
      order of first appearance. */
  function InitialTopics(): (r: seq<string>)
    ensures NoDup(r)
  {
    Dedup(TopicsOf(InitialExercises))
  }

  lemma InitialTopicsValue()
    ensures InitialTopics() == ["Toán", "Tiếng Việt", "Tự nhiên & Xã hội", "Lịch sử & Địa lí"]
  {
    var ts := InitialTopicColumn();
    DedupOfColumn("Toán", "Tiếng Việt", "Tự nhiên & Xã hội", "Lịch sử & Địa lí");
  }

  /** De-duplicating the topic column of the initial catalogue, whatever the
      four (distinct) topic names are. */
  lemma DedupOfColumn(t: string, v: string, n: string, l: string)
    requires t != v && t != n && t != l && v != n && v != l && n != l
    ensures Dedup([t, t, v, t, n, n, l, l]) == [t, v, n, l]
  {
    var p4 := [t] + [t] + [v] + [t];
    assert Dedup(p4) == [t, v] by {
      var p1 := [t];
      assert Dedup(p1) == [t] by { assert p1[..0] == []; }
      DedupKeep(p1, t, [t]);
      DedupGrow(p1 + [t], v, [t]);
      DedupKeep(p1 + [t] + [v], t, [t, v]);
    }
    var p8 := p4 + [n] + [n] + [l] + [l];
    assert Dedup(p8) == [t, v, n, l] by {
      DedupGrow(p4, n, [t, v]);
      DedupKeep(p4 + [n], n, [t, v, n]);
      DedupGrow(p4 + [n] + [n], l, [t, v, n]);
      DedupKeep(p4 + [n] + [n] + [l], l, [t, v, n, l]);
    }
    ColumnSpelledOut(t, v, n, l);
  }

  lemma DedupKeep(p: seq<string>, x: string, d: seq<string>)
    requires Dedup(p) == d && x in d
    ensures Dedup(p + [x]) == d
  {
    DedupSnoc(p, x);
  }

  lemma DedupGrow(p: seq<string>, x: string, d: seq<string>)
    requires Dedup(p) == d && x !in d
    ensures Dedup(p + [x]) == d + [x]
  {
    DedupSnoc(p, x);
  }

  lemma ColumnSpelledOut(t: string, v: string, n: string, l: string)
    ensures [t] + [t] + [v] + [t] + [n] + [n] + [l] + [l] == [t, t, v, t, n, n, l, l]
  {
  }

  lemma InitialTopicColumn() returns (ts: seq<string>)
    ensures ts == TopicsOf(InitialExercises)
    ensures ts == ["Toán", "Toán", "Tiếng Việt", "Toán", "Tự nhiên & Xã hội", "Tự nhiên & Xã hội",
                   "Lịch sử & Địa lí", "Lịch sử & Địa lí"]
  {
    ts := TopicsOf(InitialExercises);
  }

  /** The draft an exercise was made from. */
  function DraftOf(e: Exercise): ExerciseDraft {
    ExerciseDraft(e.topic, e.grade, e.skill, e.level, e.question, e.answer, e.hint)
  }

  /** `newExercises.map((ex, index) => ({...ex, id: ...}))`, where `newId`
      stands for the clock-and-random id of position `index`. */
  function WithIds(drafts: seq<ExerciseDraft>, newId: nat -> string): (r: seq<Exercise>)
    ensures |r| == |drafts|
    ensures forall i :: 0 <= i < |r| ==> DraftOf(r[i]) == drafts[i] && r[i].id == newId(i)
  {
    if drafts == [] then []
    else
      var k := |drafts| - 1;
      WithIds(drafts[..k], newId) + [WithId(drafts[k], newId(k))]
  }

  /** `{ ...student, ...updates }`. */
  function Patched(s: Student, u: StudentUpdate): Student {
    s.(currentWeekCorrect := if u.currentWeekCorrect.Some? then u.currentWeekCorrect.value else s.currentWeekCorrect,
       knowledgeSeeds := if u.knowledgeSeeds.Some? then u.knowledgeSeeds.value else s.knowledgeSeeds)
  }

  /** The exact (untrimmed, case-sensitive) match `handleUpdateStudentData` uses. */
  predicate ExactMatch(s: Student, name: string, className: string) {
    s.name == name && s.className == className
  }

  /** `handleUpdateStudentData`: every student whose name and class match
      exactly gets the fields present in `updates`; every other student, every
      other field, the length and the order are kept. */
  function UpdatedStudents(students: seq<Student>, name: string, className: string, updates: StudentUpdate)
    : (r: seq<Student>)
    ensures |r| == |students|
    ensures forall i :: 0 <= i < |r| ==>
      r[i].name == students[i].name && r[i].className == students[i].className &&
      r[i].teacherName == students[i].teacherName &&
      r[i].previousWeekCorrect == students[i].previousWeekCorrect
    ensures forall i :: 0 <= i < |r| && !ExactMatch(students[i], name, className) ==> r[i] == students[i]
    ensures forall i :: 0 <= i < |r| && ExactMatch(students[i], name, className) ==>
      r[i].currentWeekCorrect == (if updates.currentWeekCorrect.Some? then updates.currentWeekCorrect.value
                                  else students[i].currentWeekCorrect) &&
      r[i].knowledgeSeeds == (if updates.knowledgeSeeds.Some? then updates.knowledgeSeeds.value
                              else students[i].knowledgeSeeds)
  {
    seq(|students|, i requires 0 <= i < |students| =>
      if ExactMatch(students[i], name, className) then Patched(students[i], updates) else students[i])
  }

  /** The updates write absolute values, so applying the same update twice is
      applying it once. */
  lemma UpdateIsIdempotent(students: seq<Student>, name: string, className: string, updates: StudentUpdate)
    ensures var once := UpdatedStudents(students, name, className, updates);
      UpdatedStudents(once, name, className, updates) == once
  {
  }

  /** The login key: trimmed, lower-cased name and class joined by `-`. */
  function StudentKey(name: string, className: string): string {
    Normalize(name) + "-" + Normalize(className)
  }

  /** Joining with `-` is not injective on arbitrary strings: two different
      (normalised) name and class pairs can have the same key. */
  lemma StudentKeyIsAmbiguous()
    ensures Normalize("an-b") != Normalize("an") && StudentKey("an-b", "c") == StudentKey("an", "b-c")
  {
    assert Trim("an-b") == "an-b";
    assert Trim("an") == "an";
    assert Trim("c") == "c";
    assert Trim("b-c") == "b-c";
  }

  /** When the two normalised class names have the same length, as the
      six-character class options of the login form and of the initial roster
      do, equal keys do mean equal names and classes: a clash as above needs
      class names of different lengths. */
  lemma StudentKeyInjectiveForEqualLengthClasses(n1: string, c1: string, n2: string, c2: string)
    requires |Normalize(c1)| == |Normalize(c2)|
    requires StudentKey(n1, c1) == StudentKey(n2, c2)
    ensures Normalize(n1) == Normalize(n2) && Normalize(c1) == Normalize(c2)
  {
    var k1, k2 := StudentKey(n1, c1), StudentKey(n2, c2);
    var m := |Normalize(n1)|;
    assert |Normalize(n2)| == m;
    assert Normalize(n1) == k1[..m] && Normalize(n2) == k2[..m];
    assert Normalize(c1) == k1[m + 1..] && Normalize(c2) == k2[m + 1..];
  }

  /** `allStudents.find(...)` on the login key: the position of the first
      student whose key is that of the given name and class. */
  function FindStudent(students: seq<Student>, name: string, className: string): (r: Option<nat>)
    ensures r.Some? ==>
      r.value < |students| &&
      StudentKey(students[r.value].name, students[r.value].className) == StudentKey(name, className)
    ensures r.Some? ==> forall j :: 0 <= j < r.value ==>
      StudentKey(students[j].name, students[j].className) != StudentKey(name, className)
    ensures r.None? ==> forall j :: 0 <= j < |students| ==>
      StudentKey(students[j].name, students[j].className) != StudentKey(name, className)
  {
    if students == [] then None
    else if StudentKey(students[0].name, students[0].className) == StudentKey(name, className) then Some(0)
    else match FindStudent(students[1..], name, className)
      case None => None
      case Some(k) => Some(k + 1)
  }

  /** The student created on a first login: the form's three fields and all
      counters at 0. */
  function NewStudent(name: string, className: string, teacherName: string): (s: Student)
    ensures s.name == name && s.className == className && s.teacherName == teacherName
    ensures s.previousWeekCorrect == 0 && s.currentWeekCorrect == 0 && s.knowledgeSeeds == 0
  {
    Student(name, className, teacherName, 0, 0, 0)
  }

  /** After the first login appended a student, the same login finds that
      student, so a second login creates nobody. */
  lemma SecondLoginFindsCreatedStudent(students: seq<Student>, name: string, className: string, teacherName: string)
    requires FindStudent(students, name, className).None?
    ensures FindStudent(students + [NewStudent(name, className, teacherName)], name, className) == Some(|students|)
  {
    var s := students + [NewStudent(name, className, teacherName)];
    var r := FindStudent(s, name, className);
    assert s[|students|] == NewStudent(name, className, teacherName);
    assert forall j :: 0 <= j < |students| ==> s[j] == students[j];
    assert r.Some?;
  }

  /** What the page shows. */
  datatype View = LoginView | DashboardView | PracticeView

  /** `renderView`: the login screen without a user, otherwise the screen of
      the user's role. */
  function RenderedView(user: Option<AppUser>): (v: View)
    ensures v == LoginView <==> user.None?
    ensures v == DashboardView <==> user.Some? && user.value.Role() == TEACHER
    ensures v == PracticeView <==> user.Some? && user.value.Role() == STUDENT
  {
    match user
    case None => LoginView
    case Some(u) => if u.Role() == TEACHER then DashboardView else PracticeView
  }

  /** The application's state. */
  class App {
    var exercises: seq<Exercise>
    var topics: seq<string>
    var allStudents: seq<Student>
    var user: Option<AppUser>

    /** The topic list never lists a topic twice. */
    ghost predicate Valid()
      reads this
    {
      NoDup(topics)
    }

    constructor ()
      ensures Valid()
      ensures exercises == InitialExercises && topics == InitialTopics()
      ensures allStudents == InitialStudents && user == None
    {
      exercises := InitialExercises;
      topics := InitialTopics();
      allStudents := InitialStudents;
      user := None;
    }

    /** `handleAddExercise`: the new exercises, stamped with ids, go after the
        existing ones, in the given order. */
    method HandleAddExercise(newExercises: seq<ExerciseDraft>, newId: nat -> string)
      requires Valid()
      modifies this`exercises
      ensures Valid()
      ensures exercises == old(exercises) + WithIds(newExercises, newId)
    {
      var fullExercises := WithIds(newExercises, newId);
      exercises := exercises + fullExercises;
    }

    /** `handleAddTopic`: appends the topic only when it is not yet listed. */
    method HandleAddTopic(topic: string)
      requires Valid()
      modifies this`topics
      ensures Valid()
      ensures topics == AppendNew(old(topics), topic)
    {
      if topic !in topics {
        topics := topics + [topic];
      }
    }

    /** `handleUpdateStudentData`. The `user` snapshot is not refreshed. */
    method HandleUpdateStudentData(studentName: string, className: string, updates: StudentUpdate)
      requires Valid()
      modifies this`allStudents
      ensures Valid()
      ensures allStudents == UpdatedStudents(old(allStudents), studentName, className, updates)
    {
      allStudents := UpdatedStudents(allStudents, studentName, className, updates);
    }

    /** `handleLogin`. A teacher becomes the user as given. A student is
        looked up by the login key: a match becomes the user as stored (its
        counters, and its teacher, not the form's), otherwise a new student
        with zero counters is appended and becomes the user. */
    method HandleLogin(loggedInUser: LoginInfo)
      requires Valid()
      modifies this`allStudents, this`user
      ensures Valid()
      ensures loggedInUser.TeacherLogin? ==>
        user == Some(TeacherUser(loggedInUser.name, loggedInUser.className)) && allStudents == old(allStudents)
      ensures loggedInUser.StudentLogin? ==>
        match FindStudent(old(allStudents), loggedInUser.name, loggedInUser.className)
        case Some(i) => user == Some(StudentUser(old(allStudents)[i])) && allStudents == old(allStudents)
        case None =>
          var created := NewStudent(loggedInUser.name, loggedInUser.className, loggedInUser.teacherName);
          allStudents == old(allStudents) + [created] && user == Some(StudentUser(created))
    {
      match loggedInUser
      case TeacherLogin(name, className) =>
        user := Some(TeacherUser(name, className));
      case StudentLogin(name, className, teacherName) =>
        var existing := FindStudent(allStudents, name, className);
        if existing.Some? {
          user := Some(StudentUser(allStudents[existing.value]));
        } else {
          var newStudent := NewStudent(name, className, teacherName);
          allStudents := allStudents + [newStudent];
          user := Some(StudentUser(newStudent));
        }
    }

    /** The logout button. */
    method Logout()
      requires Valid()
      modifies this`user
      ensures Valid()
      ensures user == None
    {
      user := None;
    }
  }
}
