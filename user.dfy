/**
 * The value layer of liblastfm's user header: the Gender classifier and the
 * inline part of the User profile class (namespace lastfm).
 *
 * QObject::tr is taken to be the identity, so Gender renders the untranslated
 * one-letter labels.
 */
module LastFm {
  import opened QStrings

  /** The label "m" (male). */
  const MaleCode: QString := Ascii1('m')
  /** The label "f" (female). */
  const FemaleCode: QString := Ascii1('f')
  /** The label "n" ("as in neuter"): anything that is neither male nor female. */
  const NeuterCode: QString := Ascii1('n')

  /** A code as Gender stores it: already lower-cased. */
  type LowerCode = s: QString | IsLower(s)

  /**
   * A gender given by a one-letter code. The code is private in the source and
   * only ever set through the constructors, so it is always lower-case.
   */
  datatype Gender = Gender(code: LowerCode)
  {
    /** Gender(): the default code is empty. */
    static function Unset(): (g: Gender)
      ensures g.code == []
      ensures !g.Known() && g.ToString() == NeuterCode
    {
      Gender([])
    }

    /**
     * Gender(ss): lower-cases the code. Nothing is rejected; a code other than
     * "m" or "f" in either case is simply unknown.
     */
    static function FromCode(ss: QString): (g: Gender)
      ensures g.Male() <==> ss == Ascii1('m') || ss == Ascii1('M')
      ensures g.Female() <==> ss == Ascii1('f') || ss == Ascii1('F')
      ensures g.Known() <==> ss in {Ascii1('m'), Ascii1('M'), Ascii1('f'), Ascii1('F')}
      ensures IsLower(ss) ==> g.code == ss
    {
      ToLowerIsSingleLetter(ss, 'm');
      ToLowerIsSingleLetter(ss, 'f');
      Gender(ToLower(ss))
    }

    /** known(): the code is one of the two recognised ones. */
    function Known(): (b: bool)
      ensures b <==> Male() != Female()
    {
      Male() || Female()
    }

    /** male(): the code is "m"; a male code is one letter and never the female one. */
    function Male(): (b: bool)
      ensures b ==> |code| == 1 && code != FemaleCode
    {
      code == MaleCode
    }

    /** female(): the code is "f"; a female code is one letter and never the male one. */
    function Female(): (b: bool)
      ensures b ==> |code| == 1 && code != MaleCode
    {
      code == FemaleCode
    }

    /** The one-letter label: "m", "f" or "n". */
    function ToString(): (r: QString)
      ensures r == MaleCode <==> Male()
      ensures r == FemaleCode <==> Female()
      ensures r == NeuterCode <==> !Known()
    {
      if Male() then MaleCode
      else if Female() then FemaleCode
      else NeuterCode
    }
  }

  /** A gender is never both male and female, and is known exactly when it is one of them. */
  lemma GenderExclusive(g: Gender)
    ensures !(g.Male() && g.Female())
    ensures g.Known() <==> g.Male() != g.Female()
  {
  }

  /** Constructing a gender from its own label classifies it the same way again. */
  lemma GenderRenderRoundTrip(g: Gender)
    ensures Gender.FromCode(g.ToString()).Male() == g.Male()
    ensures Gender.FromCode(g.ToString()).Female() == g.Female()
    ensures Gender.FromCode(g.ToString()).ToString() == g.ToString()
  {
  }

  /** Upper-case codes are recognised: Gender("M") is male and Gender("F") renders as "f". */
  lemma GenderUpperCaseCodes()
    ensures Gender.FromCode(Ascii1('M')).Male()
    ensures Gender.FromCode(Ascii1('F')).Female()
    ensures Gender.FromCode(Ascii1('F')).ToString() == FemaleCode
  {
  }

  /** Re-constructing a gender from its stored code gives the same gender back. */
  lemma GenderFromOwnCode(g: Gender)
    ensures Gender.FromCode(g.code) == g
  {
  }

  /** User::Type. */
  datatype UserType = TypeUser | TypeSubscriber | TypeModerator | TypeStaff | TypeAlumni

  /** quint32, the width of the scrobble count. */
  newtype UInt32 = x: int | 0 <= x < 0x1_0000_0000

  /** unsigned short, the width of the age. */
  newtype UInt16 = x: int | 0 <= x < 0x1_0000

  /**
   * A last.fm user profile. Equality and order look at the name only.
   * The match score is a float whose negative values mean "not set"; only its
   * sign matters to the code here, so it is a `real`.
   */
  class User {
    var name: QString
    var userType: UserType
    var images: seq<QString>
    var matchScore: real
    var realName: QString
    var gender: Gender
    var age: UInt16
    var scrobbles: UInt32
    var country: QString
    var isSubscriber: bool
    var canBootstrap: bool

    /**
     * User(name). The type, flags, age and scrobble count are not initialised
     * by the source, so nothing is known about them here; the string, list and
     * gender members are default-constructed.
     */
    constructor (name: QString)
      ensures this.name == name && ToString() == name
      ensures matchScore < 0.0
      ensures realName == [] && country == [] && images == []
      ensures !gender.Known()
    {
      this.name := name;
      matchScore := -1.0;
      realName := [];
      country := [];
      images := [];
      gender := Gender.Unset();
    }

    /** toString() and operator QString(): the name. */
    function ToString(): (r: QString)
      reads this
      ensures r == name
    {
      name
    }

    /** operator==: equal users are ordered neither way by operator<. */
    function Eq(that: User): (b: bool)
      reads this, that
      ensures b ==> !Less(that) && !that.Less(this)
    {
      LessIrreflexive(name);
      name == that.name
    }

    /** operator<: never holds in both directions. */
    function Less(that: User): (b: bool)
      reads this, that
      ensures b ==> !QStrings.Less(that.name, name)
    {
      if QStrings.Less(name, that.name) then
        LessAsymmetric(name, that.name);
        true
      else
        false
    }

    method SetName(n: QString)
      modifies this
      ensures name == n && ToString() == n
      ensures userType == old(userType) && images == old(images)
      ensures matchScore == old(matchScore) && realName == old(realName)
      ensures gender == old(gender) && age == old(age) && scrobbles == old(scrobbles)
      ensures country == old(country)
      ensures isSubscriber == old(isSubscriber) && canBootstrap == old(canBootstrap)
    {
      name := n;
    }

    method SetType(t: UserType)
      modifies this
      ensures userType == t
      ensures name == old(name) && images == old(images)
      ensures matchScore == old(matchScore) && realName == old(realName)
      ensures gender == old(gender) && age == old(age) && scrobbles == old(scrobbles)
      ensures country == old(country)
      ensures isSubscriber == old(isSubscriber) && canBootstrap == old(canBootstrap)
    {
      userType := t;
    }
  }

  /** Two users are equal exactly when their names are, whatever else they hold. */
  lemma EqIsNameEquality(u: User, v: User)
    ensures u.Eq(v) <==> u.ToString() == v.ToString()
    ensures u.Eq(u) && (u.Eq(v) <==> v.Eq(u))
  {
  }

  lemma UserLessIrreflexive(u: User)
    ensures !u.Less(u)
  {
    QStrings.LessIrreflexive(u.name);
  }

  lemma UserLessTransitive(u: User, v: User, w: User)
    requires u.Less(v) && v.Less(w)
    ensures u.Less(w)
  {
    QStrings.LessTransitive(u.name, v.name, w.name);
  }

  /**
   * operator== and operator< agree: two users are equal exactly when neither
   * is less than the other, and otherwise exactly one is less.
   */
  lemma UserEqIffNeitherLess(u: User, v: User)
    ensures u.Eq(v) <==> !u.Less(v) && !v.Less(u)
    ensures !u.Eq(v) ==> (u.Less(v) != v.Less(u))
  {
    if u.Eq(v) {
      QStrings.LessIrreflexive(u.name);
    } else {
      QStrings.LessTotal(u.name, v.name);
      if u.Less(v) {
        QStrings.LessAsymmetric(u.name, v.name);
      }
    }
  }
}
