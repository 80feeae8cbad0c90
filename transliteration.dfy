/**
 * The ICU transliteration `Any-Latin; Latin-ASCII; [^a-zA-Z0-9\.\ -_] Remove;`
 * used by `UserHelper::stripAccents`. ICU is a foreign library, so the model
 * takes the transliterator as a parameter and states, as predicates, the two
 * facts the rule itself guarantees. `LatinAscii` is one concrete transliterator
 * that has both facts and reproduces the repository's test vector.
 */
module Transliteration {

  type Transliterator = string -> string

  /**
   * The characters that survive the final `Remove` filter. In the set
   * `[^a-zA-Z0-9\.\ -_]` the part `\ -_` is a range from space (U+0020) to
   * underscore (U+005F), so the kept characters are the lower-case letters and
   * every character from space to underscore.
   */
  predicate Kept(c: char) {
    ('a' <= c <= 'z') || ('A' <= c <= 'Z') || ('0' <= c <= '9') || c == '.' || (' ' <= c <= '_')
  }

  predicate AllKept(s: string) {
    forall k :: 0 <= k < |s| ==> Kept(s[k])
  }

  /** The output of the rule never holds a character the filter removes. */
  ghost predicate OutputKept(tr: Transliterator) {
    forall s :: AllKept(tr(s))
  }

  /** A string already made of kept ASCII characters passes through the rule unchanged. */
  ghost predicate KeepsKept(tr: Transliterator) {
    forall s :: AllKept(s) ==> tr(s) == s
  }

  ghost predicate IcuLike(tr: Transliterator) {
    OutputKept(tr) && KeepsKept(tr)
  }

  // ---------------------------------------------------------------------------
  // A sample transliterator: a table for the accented letters of French, and ß and Ø

  /** What one character becomes: kept characters stay, table letters map to ASCII letters, the rest is removed. */
  function Letter(c: char): (r: string)
    ensures Kept(c) ==> r == [c]
    ensures ',' in r ==> c == ','
  {
    if Kept(c) then [c]
    else match c
      case 'À' | 'Â' => "A"
      case 'à' | 'â' | 'ä' => "a"
      case 'Ç' => "C"
      case 'ç' => "c"
      case 'É' | 'È' | 'Ê' => "E"
      case 'é' | 'è' | 'ê' | 'ë' => "e"
      case 'î' | 'ï' => "i"
      case 'Ø' | 'Ô' => "O"
      case 'ø' | 'ô' | 'ö' => "o"
      case 'ù' | 'û' | 'ü' => "u"
      case 'ß' => "ss"
      case 'œ' => "oe"
      case _ => ""
  }

  function LatinAscii(s: string): string
    decreases |s|
  {
    if s == [] then "" else Letter(s[0]) + LatinAscii(s[1..])
  }

  lemma LatinAsciiCons(c: char, s: string)
    ensures LatinAscii([c] + s) == Letter(c) + LatinAscii(s)
  {
    assert ([c] + s)[1..] == s;
  }

  /** The table on the tail of the repository's test vector. */
  lemma LatinAsciiTestVectorTail()
    ensures LatinAscii("-ßØ") == "-ssO"
  {
    assert LatinAscii("Ø") == "O" by { LatinAsciiCons('Ø', ""); }
    assert LatinAscii("ßØ") == "ssO" by { LatinAsciiCons('ß', "Ø"); }
    LatinAsciiCons('-', "ßØ");
  }

  lemma LatinAsciiTestVectorMiddle()
    ensures LatinAscii("éè-ßØ") == "ee-ssO"
  {
    LatinAsciiTestVectorTail();
    assert LatinAscii("è-ßØ") == "e-ssO" by { LatinAsciiCons('è', "-ßØ"); }
    LatinAsciiCons('é', "è-ßØ");
  }

  /** The table on the characters of the repository's test vector. */
  lemma LatinAsciiTestVector()
    ensures LatinAscii("çéè-ßØ") == "cee-ssO"
  {
    LatinAsciiTestVectorMiddle();
    LatinAsciiCons('ç', "éè-ßØ");
  }

  /** Every table entry is made of kept characters. */
  lemma LetterKept(c: char)
    ensures AllKept(Letter(c))
  {
    if !Kept(c) {
      var r := Letter(c);
      assert forall k :: 0 <= k < |r| ==> 'A' <= r[k] <= 'Z' || 'a' <= r[k] <= 'z';
    }
  }

  lemma {:induction false} LatinAsciiOutputKept(s: string)
    ensures AllKept(LatinAscii(s))
    decreases |s|
  {
    if s != [] {
      LetterKept(s[0]);
      LatinAsciiOutputKept(s[1..]);
    }
  }

  lemma {:induction false} LatinAsciiKeepsKept(s: string)
    requires AllKept(s)
    ensures LatinAscii(s) == s
    decreases |s|
  {
    if s != [] {
      LatinAsciiKeepsKept(s[1..]);
      assert [s[0]] + s[1..] == s;
    }
  }

  /** The sample table has both properties the ICU rule guarantees. */
  lemma LatinAsciiIsIcuLike()
    ensures IcuLike(LatinAscii)
  {
    forall s | true ensures AllKept(LatinAscii(s)) {
      LatinAsciiOutputKept(s);
    }
    forall s | AllKept(s) ensures LatinAscii(s) == s {
      LatinAsciiKeepsKept(s);
    }
  }
}
