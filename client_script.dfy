/**
 * static/js/main.js: the password-strength meter of the sign-up form and
 * the icon choice of the toast notifications.
 *
 * A JavaScript string is a sequence of UTF-16 code units: `length` counts
 * them, and a regular expression without the `u` flag tests them one by one.
 */
module ClientScript {

  newtype CodeUnit = x: int | 0 <= x < 0x1_0000

  predicate IsLower(c: CodeUnit) { 0x61 <= c <= 0x7A }  // a-z
  predicate IsUpper(c: CodeUnit) { 0x41 <= c <= 0x5A }  // A-Z
  predicate IsDigit(c: CodeUnit) { 0x30 <= c <= 0x39 }  // 0-9

  /** `/[a-z]/.test(password)`. */
  predicate HasLower(pw: seq<CodeUnit>) { exists i :: 0 <= i < |pw| && IsLower(pw[i]) }
  /** `/[A-Z]/.test(password)`. */
  predicate HasUpper(pw: seq<CodeUnit>) { exists i :: 0 <= i < |pw| && IsUpper(pw[i]) }
  /** `/[0-9]/.test(password)`. */
  predicate HasDigit(pw: seq<CodeUnit>) { exists i :: 0 <= i < |pw| && IsDigit(pw[i]) }
  /** `/[^A-Za-z0-9]/.test(password)`. */
  predicate HasSymbol(pw: seq<CodeUnit>) {
    exists i :: 0 <= i < |pw| && !IsLower(pw[i]) && !IsUpper(pw[i]) && !IsDigit(pw[i])
  }

  function Indicator(b: bool): nat { if b then 1 else 0 }

  /**
   * The score: one point for each condition that holds among a length of at
   * least 8, a lower-case letter, an upper-case letter, a digit, and any
   * other character.
   */
  function Score(pw: seq<CodeUnit>): (s: nat)
    ensures s <= 5
    ensures s == 0 <==> pw == []
  {
    // a non-empty password has a first character, which falls in some class
    assert pw != [] ==> HasLower(pw) || HasUpper(pw) || HasDigit(pw) || HasSymbol(pw) by {
      if pw != [] {
        assert IsLower(pw[0]) || IsUpper(pw[0]) || IsDigit(pw[0]) || (!IsLower(pw[0]) && !IsUpper(pw[0]) && !IsDigit(pw[0]));
      }
    }
    Indicator(|pw| >= 8) + Indicator(HasLower(pw)) + Indicator(HasUpper(pw))
      + Indicator(HasDigit(pw)) + Indicator(HasSymbol(pw))
  }

  datatype Strength = Strength(color: string, text: string, percentage: nat)

  /** The five levels, weakest first. */
  const Strengths: seq<Strength> := [
    Strength("danger", "Very Weak", 20),
    Strength("danger", "Weak", 40),
    Strength("warning", "Fair", 60),
    Strength("info", "Good", 80),
    Strength("success", "Strong", 100)
  ]

  function Min(a: int, b: int): int { if a <= b then a else b }

  /**
   * `calculatePasswordStrength`: the level `strengths[Math.min(score, 4)]`.
   * The percentage is 20 per level; scores 4 and 5 both give "Strong".
   */
  function CalculatePasswordStrength(pw: seq<CodeUnit>): (r: Strength)
    ensures r in Strengths
    ensures r.percentage == 20 * (Min(Score(pw), 4) + 1)
    ensures r.text == "Strong" <==> Score(pw) >= 4
    ensures r.text == "Very Weak" <==> pw == []
  {
    Strengths[Min(Score(pw), 4)]
  }

  /** The empty password is "Very Weak" at 20%. */
  lemma EmptyPasswordVeryWeak()
    ensures CalculatePasswordStrength([]) == Strength("danger", "Very Weak", 20)
  {
    assert Score([]) == 0;
  }

  /** Eight code units or more score at least one point, whatever they are. */
  lemma LongPasswordScores(pw: seq<CodeUnit>)
    requires |pw| >= 8
    ensures Score(pw) >= 1
    ensures CalculatePasswordStrength(pw).percentage >= 40
  {
  }

  /** A higher score never shows a lower percentage. */
  lemma PercentageMonotone(a: seq<CodeUnit>, b: seq<CodeUnit>)
    requires Score(a) <= Score(b)
    ensures CalculatePasswordStrength(a).percentage <= CalculatePasswordStrength(b).percentage
  {
  }

  /** Typing more characters never lowers the strength shown. */
  lemma {:induction false} AppendNeverWeakens(a: seq<CodeUnit>, b: seq<CodeUnit>)
    ensures Score(a) <= Score(a + b)
    ensures CalculatePasswordStrength(a).percentage <= CalculatePasswordStrength(a + b).percentage
  {
    var ab := a + b;
    assert forall i :: 0 <= i < |a| ==> ab[i] == a[i];
    if HasLower(a) { var i :| 0 <= i < |a| && IsLower(a[i]); assert IsLower(ab[i]); }
    if HasUpper(a) { var i :| 0 <= i < |a| && IsUpper(a[i]); assert IsUpper(ab[i]); }
    if HasDigit(a) { var i :| 0 <= i < |a| && IsDigit(a[i]); assert IsDigit(ab[i]); }
    if HasSymbol(a) {
      var i :| 0 <= i < |a| && !IsLower(a[i]) && !IsUpper(a[i]) && !IsDigit(a[i]);
      assert !IsLower(ab[i]) && !IsUpper(ab[i]) && !IsDigit(ab[i]);
    }
    PercentageMonotone(a, ab);
  }

  /** The own properties of the `icons` object literal. */
  const ToastIcons: map<string, string> := map[
    "success" := "check-circle",
    "danger" := "alert-circle",
    "warning" := "alert-triangle",
    "info" := "info"
  ]

  /**
   * The names a plain object literal inherits from `Object.prototype`; each
   * reads as a function or an object, which is truthy.
   */
  const ObjectPrototypeMembers: set<string> := {
    "constructor", "hasOwnProperty", "isPrototypeOf", "propertyIsEnumerable",
    "toLocaleString", "toString", "valueOf", "__proto__",
    "__defineGetter__", "__defineSetter__", "__lookupGetter__", "__lookupSetter__"
  }

  /** What `icons[type] || 'info'` evaluates to: an icon name, or an inherited member. */
  datatype IconValue = IconName(name: string) | InheritedMember(member: string)

  /** `getToastIcon` as written: the property lookup also finds inherited members. */
  function ToastIconAsWritten(kind: string): (r: IconValue)
    ensures r.InheritedMember? <==> kind in ObjectPrototypeMembers
    ensures r.IconName? ==> r.name in ToastIcons.Values
  {
    assert ToastIcons["info"] == "info";
    assert forall k :: k in ToastIcons ==> k !in ObjectPrototypeMembers;
    if kind in ToastIcons then IconName(ToastIcons[kind])
    else if kind in ObjectPrototypeMembers then InheritedMember(kind)
    else IconName("info")
  }

  /**
   * `getToastIcon` as intended: the four toast types map to their icons and
   * every other type to "info"; the result is always one of the four icons.
   */
  function ToastIcon(kind: string): (icon: string)
    ensures icon in ToastIcons.Values
    ensures kind == "success" ==> icon == "check-circle"
    ensures kind == "danger" ==> icon == "alert-circle"
    ensures kind == "warning" ==> icon == "alert-triangle"
    ensures kind !in {"success", "danger", "warning"} ==> icon == "info"
  {
    assert ToastIcons["info"] == "info";
    if kind in ToastIcons then ToastIcons[kind] else "info"
  }

  /**
   * The two agree except on the inherited names: for "toString" the written
   * lookup yields the inherited function instead of "info".
   */
  lemma ToastIconInheritedMember(kind: string)
    ensures kind !in ObjectPrototypeMembers ==> ToastIconAsWritten(kind) == IconName(ToastIcon(kind))
    ensures kind in ObjectPrototypeMembers ==> ToastIconAsWritten(kind) == InheritedMember(kind) && ToastIcon(kind) == "info"
    ensures ToastIconAsWritten("toString") == InheritedMember("toString")
  {
    assert "toString" in ObjectPrototypeMembers && "toString" !in ToastIcons;
    if kind in ObjectPrototypeMembers {
      assert kind !in ToastIcons;
    }
  }
}
