/** The application's records (types.ts). */
module Types {

  datatype Option<T> = None | Some(value: T)

  /** The three difficulty levels; each carries the display string the
      application stores and sorts on. */
  datatype Level = BASIC | INTERMEDIATE | ADVANCED {
    function Value(): string {
      match this
      case BASIC => "Cơ bản"
      case INTERMEDIATE => "Trung bình"
      case ADVANCED => "Nâng cao"
    }
  }

  /** An exercise of the catalogue. */
  datatype Exercise = Exercise(
    id: string,
    topic: string,
    grade: string,
    skill: string,
    level: Level,
    question: string,
    answer: string,
    hint: string)

  /** An exercise before an id is assigned (`Omit<Exercise, 'id'>`). */
  datatype ExerciseDraft = ExerciseDraft(
    topic: string,
    grade: string,
    skill: string,
    level: Level,
    question: string,
    answer: string,
    hint: string)

  function WithId(d: ExerciseDraft, id: string): Exercise {
    Exercise(id, d.topic, d.grade, d.skill, d.level, d.question, d.answer, d.hint)
  }

  datatype ViewMode = TEACHER | STUDENT

  /** A student record of the roster. */
  datatype Student = Student(
    name: string,
    className: string,
    teacherName: string,
    previousWeekCorrect: int,
    currentWeekCorrect: int,
    knowledgeSeeds: int)

  /** The logged-in user, discriminated by role: a teacher carries only a
      name and a class, a student the whole record. */
  datatype AppUser = TeacherUser(name: string, className: string) | StudentUser(student: Student) {
    function Role(): ViewMode {
      if TeacherUser? then TEACHER else STUDENT
    }
  }

  /** What a login form hands to the application: a teacher's identity, or a
      student's identity without the three counters. */
  datatype LoginInfo =
    | TeacherLogin(name: string, className: string)
    | StudentLogin(name: string, className: string, teacherName: string)
  {
    function Role(): ViewMode {
      if TeacherLogin? then TEACHER else STUDENT
    }
  }

  /** `Partial<Pick<Student, 'currentWeekCorrect' | 'knowledgeSeeds'>>`: the
      fields present are written, absolute values, onto the record. */
  datatype StudentUpdate = StudentUpdate(currentWeekCorrect: Option<int>, knowledgeSeeds: Option<int>)

  /** A call of `onUpdateStudentData(name, className, updates)`. */
  datatype UpdateRequest = UpdateRequest(name: string, className: string, updates: StudentUpdate)
}
