/**
  Extraction of a symbol's offset from one line of `backtrace_symbols`
  output, which has the shape `<executable>(+0x<offset>)`.  Both log
  classes print, for each frame whose line names the target executable,
  the characters between the four-character prefix after the opening
  parenthesis and the next `)`, followed by a space; frames in other
  objects print nothing.  The two copies differ only in what they search
  for after the executable name: `(` in `RegionLog`, `(+0x` in
  `RegionMemoryLog`.
 */
module Offsets {

  import opened Wrappers
  import opened CStrings

  /** The length of the `(+0x` prefix skipped before the offset digits. */
  const PrefixLength: nat := 4

  /**
    The shape the extraction takes for granted: when the executable name
    occurs, the opener occurs after it, four characters past the opener
    are still inside the line, and a `)` follows there.  A line without
    the executable name is always acceptable.
   */
  predicate Formatted(line: string, exe: string, opener: string)
  {
    match Find(line, exe, 0)
    case None => true
    case Some(s) =>
      match Find(line, opener, s)
      case None => false
      case Some(p) => p + PrefixLength <= |line| && Find(line, ")", p + PrefixLength).Some?
  }

  /**
    Where the offset lies in `line`: the position four past the opener
    and the position of the `)` that ends it, or `None` when the
    executable name does not occur.
   */
  function Closing(line: string, exe: string, opener: string): (r: Option<(nat, nat)>)
    requires Formatted(line, exe, opener)
    ensures r.Some? ==> r.value.0 <= r.value.1 < |line|
  {
    match Find(line, exe, 0)
    case None => None
    case Some(s) =>
      var p := Find(line, opener, s).value;
      var q := Find(line, ")", p + PrefixLength).value;
      Some((p + PrefixLength, q))
  }

  /**
    `Closing` is `None` exactly when the executable name is absent, and
    otherwise finds the first opener after the first occurrence of the
    name and the first `)` four characters after that opener.
   */
  lemma ClosingIsFirst(line: string, exe: string, opener: string)
    requires Formatted(line, exe, opener)
    ensures Closing(line, exe, opener).None? <==> Absent(line, exe, 0)
    ensures Closing(line, exe, opener).Some? ==>
      var (b, q) := Closing(line, exe, opener).value;
      exists s, p :: FirstAt(line, exe, 0, s) && FirstAt(line, opener, s, p) &&
        b == p + PrefixLength && FirstAt(line, ")", b, q)
  {
    FindIsFirst(line, exe, 0);
    match Find(line, exe, 0)
    case None =>
    case Some(s) =>
      FindIsFirst(line, opener, s);
      var p := Find(line, opener, s).value;
      FindIsFirst(line, ")", p + PrefixLength);
      assert FirstAt(line, exe, 0, s) && FirstAt(line, opener, s, p);
  }

  /** The position `Closing` reports as the offset's end holds a `)`. */
  lemma ClosingParen(line: string, exe: string, opener: string)
    requires Formatted(line, exe, opener)
    ensures Closing(line, exe, opener).Some? ==> line[Closing(line, exe, opener).value.1] == ')'
  {
    ClosingIsFirst(line, exe, opener);
    if Closing(line, exe, opener).Some? {
      var q := Closing(line, exe, opener).value.1;
      assert line[q..q + 1] == ")";
    }
  }

  /**
    What `putOffset` prints for `line`: nothing when the executable name
    is absent; otherwise the offset text and a space.
   */
  function OffsetField(line: string, exe: string, opener: string): string
    requires Formatted(line, exe, opener)
  {
    match Closing(line, exe, opener)
    case None => []
    case Some((b, q)) => line[b..q] + " "
  }

  /**
    The printed field is empty exactly when the executable name is
    absent; otherwise it is the offset, which holds no `)`, and a space.
   */
  lemma OffsetFieldShape(line: string, exe: string, opener: string)
    requires Formatted(line, exe, opener)
    ensures var r := OffsetField(line, exe, opener);
      (r == [] <==> Absent(line, exe, 0)) &&
      (r != [] ==> r[|r| - 1] == ' ' && ')' !in r)
  {
    ClosingIsFirst(line, exe, opener);
    match Closing(line, exe, opener)
    case None =>
    case Some((b, q)) =>
      assert FirstAt(line, ")", b, q);
      assert ')' !in line[b..q] by {
        forall m | 0 <= m < q - b
          ensures line[b..q][m] != ')'
        {
          assert !OccursAt(line, ")", b + m);
          assert line[b + m..b + m + 1] == [line[b + m]];
        }
      }
  }

  /**
    `putOffset` on the line buffer itself: it overwrites the `)` that ends
    the offset with a NUL character, so that the offset can be printed as
    a C string, and returns what is printed.
   */
  method PutOffset(line: array<char>, exe: string, opener: string) returns (printed: string)
    requires Formatted(line[..], exe, opener)
    modifies line
    ensures printed == OffsetField(old(line[..]), exe, opener)
    ensures Closing(old(line[..]), exe, opener).None? ==> line[..] == old(line[..])
    ensures Closing(old(line[..]), exe, opener).Some? ==>
      var q := Closing(old(line[..]), exe, opener).value.1;
      q < line.Length && old(line[q]) == ')' && line[..] == old(line[..])[q := '\0']
  {
    ghost var text := line[..];
    match Closing(line[..], exe, opener)
    case None =>
      printed := [];
    case Some((b, q)) =>
      ClosingParen(text, exe, opener);
      printed := line[b..q] + " ";
      line[q] := '\0';
  }
}
