/**
 * The message part of `generate_headline`: the sign of the day's change
 * picks the table of movement verbs, and the picked phrases, the change and
 * the sanitised news title fill the format
 * `"{alias} {movement} ({change}) {link} {title}"`. Each `random.choice`
 * becomes an index supplied by the caller. The Python failures on the way
 * become errors, in the order the interpreter meets them.
 */
module Headline {
  import opened Wrappers
  import opened Text
  import InfoMoney
  import Jco
  import Sanitize

  const Aliases: seq<string> := [
    "Bolsa brasileira",
    "Bolsa de ações",
    "Bolsa de São Paulo",
    "Bolsa",
    "BOVESPA",
    "IBOV",
    "Ibovespa Futuro",
    "IBOVESPA",
    "Índice Bovespa",
    "Índice da bolsa",
    "Mercado brasileiro",
    "Mercado de ações",
    "Mercado"
  ]

  const UpMovements: seq<string> := [
    "sobe",
    "acelera",
    "se recupera",
    "decola",
    "progride",
    "avança"
  ]

  const DownMovements: seq<string> := [
    "desce",
    "desacelera",
    "cai",
    "despenca",
    "regride",
    "retrai"
  ]

  const Links: seq<string> := [
    "após jornal mostrar que",
    "após jornalista denunciar que",
    "depois de evidências de que",
    "depois de reportagem divulgar que",
    "em meio a rumores que",
    "em meio a relatos que",
    "em seguida do vazamento que",
    "em seguida de relato de que",
    "pós notícia mostrar que",
    "pouco depois de noticiado que"
  ]

  /** What the calls to `random.choice` return, as positions in the tables
      (one position serves whichever movement table the sign selects). */
  datatype Picks = Picks(alias: nat, movement: nat, link: nat, title: nat)

  /** `random.choice` always returns an element of a non-empty sequence. */
  predicate InRange(p: Picks, candidates: int) {
    && p.alias < |Aliases|
    && p.movement < |UpMovements| && p.movement < |DownMovements|
    && p.link < |Links|
    && (candidates > 0 ==> p.title < candidates)
  }

  /** The ways `generate_headline` can fail before it has a message:
      `get_ibovespa_change` found no value (`None.startswith`), the news
      page gave no candidates (`random.choice([])`), the candidate drawn is
      a value-less `title` (`None.strip`), or the change begins with neither
      `+` nor `-`, so `movement` is never assigned. */
  datatype HeadlineError = ChangeMissing | NoCandidates | TitleMissing | MovementUnbound

  /** The two `if ibovespa.startswith(...)` statements. */
  function Movement(change: string, i: nat): Option<string>
    requires i < |UpMovements| && i < |DownMovements|
  {
    if StartsWith(change, '+') then Some(UpMovements[i])
    else if StartsWith(change, '-') then Some(DownMovements[i])
    else None
  }

  /** The f-string on the last line. */
  function Message(alias: string, movement: string, change: string, link: string, title: string): string
  {
    alias + " " + movement + " (" + change + ") " + link + " " + title
  }

  /** `generate_headline`, given the day's change and the news candidates. */
  function GenerateHeadline(change: Option<string>, candidates: seq<Option<string>>, p: Picks): Result<string, HeadlineError>
    requires InRange(p, |candidates|)
  {
    if change.None? then Failure(ChangeMissing)
    else if candidates == [] then Failure(NoCandidates)
    else if candidates[p.title].None? then Failure(TitleMissing)
    else match Movement(change.value, p.movement)
      case None => Failure(MovementUnbound)
      case Some(movement) =>
        Success(Message(Aliases[p.alias], movement, change.value, Links[p.link],
                        Sanitize.SanitizeTitle(candidates[p.title].value)))
  }

  /** No verb is in both tables, so the verb tells the direction. */
  lemma MovementsDisjoint(i: nat, j: nat)
    requires i < |UpMovements| && j < |DownMovements|
    ensures UpMovements[i] != DownMovements[j]
  {
    assert UpMovements[i][2] in "bec oa" && DownMovements[j][2] in "sigt";
  }

  /** A rise takes an up verb, a fall a down verb, and anything else none. */
  lemma MovementDirection(change: string, i: nat)
    requires i < |UpMovements| && i < |DownMovements|
    ensures Movement(change, i).Some? <==> StartsWith(change, '+') || StartsWith(change, '-')
    ensures StartsWith(change, '+') ==> Movement(change, i).value in UpMovements
    ensures StartsWith(change, '-') ==> Movement(change, i).value in DownMovements
    ensures Movement(change, i).Some? ==>
      (Movement(change, i).value in UpMovements <==> StartsWith(change, '+'))
  {
    if StartsWith(change, '-') {
      var m := Movement(change, i).value;
      forall k | 0 <= k < |UpMovements| ensures UpMovements[k] != m {
        MovementsDisjoint(k, i);
      }
    }
  }

  /** Which error `generate_headline` reports, each one exactly when the
      interpreter reaches it first. */
  lemma GenerateHeadlineErrors(change: Option<string>, candidates: seq<Option<string>>, p: Picks)
    requires InRange(p, |candidates|)
    ensures GenerateHeadline(change, candidates, p) == Failure(ChangeMissing) <==> change.None?
    ensures GenerateHeadline(change, candidates, p) == Failure(NoCandidates) <==>
      change.Some? && candidates == []
    ensures GenerateHeadline(change, candidates, p) == Failure(TitleMissing) <==>
      change.Some? && candidates != [] && candidates[p.title].None?
    ensures GenerateHeadline(change, candidates, p) == Failure(MovementUnbound) <==>
      && change.Some? && candidates != [] && candidates[p.title].Some?
      && !StartsWith(change.value, '+') && !StartsWith(change.value, '-')
  {
    if change.Some? {
      MovementDirection(change.value, p.movement);
    }
  }

  /** A message is produced exactly when none of the errors occurs, and it
      is the format filled with an alias, a verb of the direction the sign
      gives, the change itself, a link and the sanitised title drawn. */
  lemma GenerateHeadlineMessage(change: Option<string>, candidates: seq<Option<string>>, p: Picks)
    requires InRange(p, |candidates|)
    ensures GenerateHeadline(change, candidates, p).Success? <==>
      && change.Some? && candidates != [] && candidates[p.title].Some?
      && (StartsWith(change.value, '+') || StartsWith(change.value, '-'))
    ensures GenerateHeadline(change, candidates, p).Success? ==>
      exists alias, movement, link ::
        && alias in Aliases && link in Links
        && (StartsWith(change.value, '+') ==> movement in UpMovements && movement !in DownMovements)
        && (StartsWith(change.value, '-') ==> movement in DownMovements && movement !in UpMovements)
        && GenerateHeadline(change, candidates, p).value ==
           Message(alias, movement, change.value, link, Sanitize.SanitizeTitle(candidates[p.title].value))
  {
    if GenerateHeadline(change, candidates, p).Success? {
      var c := change.value;
      MovementDirection(c, p.movement);
      var movement := Movement(c, p.movement).value;
      if StartsWith(c, '+') {
        forall k | 0 <= k < |DownMovements| ensures DownMovements[k] != movement {
          MovementsDisjoint(p.movement, k);
        }
      }
      assert Aliases[p.alias] in Aliases && Links[p.link] in Links;
    } else if change.Some? {
      MovementDirection(change.value, p.movement);
    }
  }

  /** The change can be read back from the message: it sits between the
      first ` (` after the verb and the `) ` before the link. */
  lemma MessageLayout(alias: string, movement: string, change: string, link: string, title: string)
    ensures var m := Message(alias, movement, change, link, title);
      var at := |alias| + 1 + |movement| + 2;
      && at + |change| + 2 <= |m|
      && m[..|alias|] == alias && m[|alias|] == ' '
      && m[|alias| + 1..|alias| + 1 + |movement|] == movement
      && m[at - 2..at] == " (" && m[at..at + |change|] == change
      && m[at + |change|..at + |change| + 2] == ") "
      && m[|m| - |title|..] == title
  {
    var m := Message(alias, movement, change, link, title);
    var at := |alias| + 1 + |movement| + 2;
    assert m == alias + " " + movement + " (" + change + ") " + link + " " + title;
    assert m[..at] == alias + " " + movement + " (";
    assert m[at..] == change + ") " + link + " " + title;
  }

  /** `generate_headline` after the downloads: the change read from the
      market page's text nodes and the candidates from the news page's start
      tags, by the two scrapers. */
  method GenerateHeadlineFrom(nodes: seq<string>, tags: seq<Jco.Tag>, p: Picks)
    returns (r: Result<string, HeadlineError>)
    requires InRange(p, |Jco.Candidates(tags)|)
    ensures r == GenerateHeadline(InfoMoney.DailyChange(nodes), Jco.Candidates(tags), p)
  {
    var change := InfoMoney.IbovespaChange(nodes);
    var candidates := Jco.NewsCandidates(tags);
    r := GenerateHeadline(change, candidates, p);
  }
}
