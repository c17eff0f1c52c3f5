/** Identifiers, calendar days, nullable references and the failures the system raises. */
module Common {

  /** Entity identifiers: the UUID strings every entity receives when it is constructed. */
  type Id = string

  /** A calendar day as a day number, so that plusDays/minusDays are + and -
      and isBefore/isAfter are < and >. */
  type Day = int

  /** A reference or value that may be null. */
  datatype Option<+T> = None | Some(value: T)

  /** What an operation returns, or the exception it throws instead. */
  datatype Result<+T> = Ok(value: T) | Err(error: Error)

  /** The kind of entity a failed lookup was looking for. */
  datatype Entity = Participant | Event | Enrollment | Work | Evaluator | Organizer | Author

  /** One constructor per distinct exception the modelled code throws. */
  datatype Error =
    | NullEntity                // a repository was asked to save null
    | NullId                    // a null id passed where an entity's id is required
    | NullArgument              // a null object passed to a domain method
    | NotFound(what: Entity)    // findById came back empty
    | MissingOrganizerRole      // the participant's profile is not ORGANIZADOR
    | MissingEvaluatorRole      // the participant's profile is not AVALIADOR
    | NotResponsibleOrganizer   // the requester is not the event's responsible organizer
    | BlankName
    | InvalidEmail
    | DuplicateEmail
    | InvalidEventDates
    | NonPositiveCapacity
    | InvalidSubmissionWindow   // submission start after submission end
    | EventFull
    | AlreadyEnrolled
    | CancellationNotAllowed
    | EventNotStarted
    | EnrollmentNotActive
    | SubmissionClosed
    | NoAuthors
    | NoAuthorEnrolled
    | WorkNotEvaluable
    | EventNotFinished
    | AlreadyIssued
    | WrongCertificateConstructor
}

/** The few java.lang.String operations the rules depend on. */
module Text {

  /** String.trim removes every character up to U+0020 from both ends. */
  predicate Trimmable(c: char) {
    c <= ' '
  }

  function TrimStart(s: string): (r: string)
    ensures |r| <= |s| && r == s[|s| - |r|..]
    ensures |r| > 0 ==> !Trimmable(r[0])
    ensures forall k :: 0 <= k < |s| - |r| ==> Trimmable(s[k])
  {
    if |s| > 0 && Trimmable(s[0]) then TrimStart(s[1..]) else s
  }

  function TrimEnd(s: string): (r: string)
    ensures |r| <= |s| && r == s[..|r|]
    ensures |r| > 0 ==> !Trimmable(r[|r| - 1])
    ensures forall k :: |r| <= k < |s| ==> Trimmable(s[k])
  {
    if |s| > 0 && Trimmable(s[|s| - 1]) then TrimEnd(s[..|s| - 1]) else s
  }

  /** String.trim: a contiguous part of s that neither starts nor ends with a trimmable
      character; a string that already does neither is returned unchanged. */
  function Trim(s: string): (r: string)
    ensures |r| <= |s| && Contains(s, r)
    ensures |r| > 0 ==> !Trimmable(r[0]) && !Trimmable(r[|r| - 1])
    ensures |s| > 0 && !Trimmable(s[0]) && !Trimmable(s[|s| - 1]) ==> r == s
  {
    TrimFacts(s);
    TrimEnd(TrimStart(s))
  }

  /** What trim keeps is a contiguous part of s that starts with a visible character, and
      it is all of s when neither end of s is trimmable. */
  lemma TrimFacts(s: string)
    ensures var r := TrimEnd(TrimStart(s));
      && Contains(s, r)
      && (|r| > 0 ==> !Trimmable(r[0]))
      && (|s| > 0 && !Trimmable(s[0]) && !Trimmable(s[|s| - 1]) ==> r == s)
  {
    var t := TrimStart(s);
    var r := TrimEnd(t);
    var i := |s| - |t|;
    assert s[i..i + |r|] == r by {
      forall k | 0 <= k < |r| ensures s[i..i + |r|][k] == r[k] {
        assert r[k] == t[k] == s[i + k];
      }
    }
    assert OccursAt(s, r, i);
    if |r| > 0 {
      assert r[0] == t[0];
    }
    if |s| > 0 && !Trimmable(s[0]) && !Trimmable(s[|s| - 1]) {
      assert t == s;
    }
  }

  /** s.trim().isEmpty(): the empty string is blank, and a string that starts or ends
      with a visible character is not. */
  function IsBlank(s: string): (r: bool)
    ensures s == [] ==> r
    ensures |s| > 0 && (!Trimmable(s[0]) || !Trimmable(s[|s| - 1])) ==> !r
  {
    var t := TrimStart(s);
    assert |s| > 0 && !Trimmable(s[|s| - 1]) ==> |t| > 0 && t[|t| - 1] == s[|s| - 1];
    |Trim(s)| == 0
  }

  /** A string is blank exactly when every one of its characters is trimmable. */
  lemma BlankIffAllTrimmable(s: string)
    ensures IsBlank(s) <==> forall k :: 0 <= k < |s| ==> Trimmable(s[k])
  {
    var t := TrimStart(s);
    if IsBlank(s) {
      // TrimEnd found every character of t trimmable, but t cannot start with one
      assert |t| == 0;
    } else {
      var r := TrimEnd(t);
      assert !Trimmable(r[0]) && r[0] == t[0] == s[|s| - |t|];
    }
  }

  /** Character.toLowerCase on the ASCII letters. */
  function LowerChar(c: char): (r: char)
    ensures 'A' <= c <= 'Z' ==> r != c && 'a' <= r <= 'z'
    ensures !('A' <= c <= 'Z') ==> r == c
  {
    if 'A' <= c <= 'Z' then (c as int + 32) as char else c
  }

  /** String.toLowerCase on ASCII text. */
  function Lower(s: string): (r: string)
    ensures |r| == |s|
    ensures forall k :: 0 <= k < |s| ==> r[k] == LowerChar(s[k])
  {
    seq(|s|, k requires 0 <= k < |s| => LowerChar(s[k]))
  }

  /** String.equalsIgnoreCase on ASCII text: the same length, and on text without
      capital letters it is plain equality. */
  function EqualsIgnoreCase(a: string, b: string): (r: bool)
    ensures a == b ==> r
    ensures r ==> |a| == |b|
    ensures ((forall k :: 0 <= k < |a| ==> !('A' <= a[k] <= 'Z'))
             && (forall k :: 0 <= k < |b| ==> !('A' <= b[k] <= 'Z'))) ==> (r <==> a == b)
  {
    assert (forall k :: 0 <= k < |a| ==> !('A' <= a[k] <= 'Z')) ==> Lower(a) == a;
    assert (forall k :: 0 <= k < |b| ==> !('A' <= b[k] <= 'Z')) ==> Lower(b) == b;
    Lower(a) == Lower(b)
  }

  /** sub occurs in s starting at position k. */
  predicate OccursAt(s: string, sub: string, k: int) {
    0 <= k <= |s| - |sub| && s[k..k + |sub|] == sub
  }

  /** String.contains: sub occurs as a contiguous part of s. */
  function Contains(s: string, sub: string): (r: bool)
    ensures |sub| == 0 ==> r
    ensures s == sub ==> r
    ensures r ==> |sub| <= |s|
    ensures |sub| == 1 ==> (r <==> sub[0] in s)
  {
    assert |sub| == 0 || s == sub ==> OccursAt(s, sub, 0);
    assert |sub| == 1 && sub[0] in s ==> exists k | 0 <= k < |s| :: s[k] == sub[0] && OccursAt(s, sub, k);
    exists k | 0 <= k <= |s| :: OccursAt(s, sub, k)
  }

  /** equalsIgnoreCase is an equivalence that ignores only the case of ASCII letters. */
  lemma EqualsIgnoreCaseIsEquivalence(a: string, b: string, c: string)
    ensures EqualsIgnoreCase(a, a)
    ensures EqualsIgnoreCase(a, b) ==> EqualsIgnoreCase(b, a)
    ensures EqualsIgnoreCase(a, b) && EqualsIgnoreCase(b, c) ==> EqualsIgnoreCase(a, c)
    ensures EqualsIgnoreCase(a, b) ==> |a| == |b|
  {
  }
  /** contains is transitive: a part of a part is a part. */
  lemma ContainsTransitive(a: string, b: string, c: string)
    requires Contains(a, b) && Contains(b, c)
    ensures Contains(a, c)
  {
    var i :| 0 <= i <= |a| && OccursAt(a, b, i);
    var j :| 0 <= j <= |b| && OccursAt(b, c, j);
    var x, y := a[i + j..i + j + |c|], b[j..j + |c|];
    assert x == y by {
      forall k | 0 <= k < |c| ensures x[k] == y[k] {
        assert a[i..i + |b|][j + k] == b[j + k];
      }
    }
    assert OccursAt(a, c, i + j);
  }

  /** Lower-casing both sides keeps an occurrence where it was. */
  lemma LowerKeepsContains(s: string, sub: string)
    requires Contains(s, sub)
    ensures Contains(Lower(s), Lower(sub))
  {
    var i :| 0 <= i <= |s| && OccursAt(s, sub, i);
    assert Lower(s)[i..i + |sub|] == Lower(sub) by {
      forall k | 0 <= k < |sub| ensures Lower(s)[i..i + |sub|][k] == Lower(sub)[k] {
        assert s[i..i + |sub|][k] == sub[k];
      }
    }
    assert OccursAt(Lower(s), Lower(sub), i);
  }
}
