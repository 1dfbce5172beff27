/** The fixed configuration at the top of tweet.py: the banned words and
    the three exemplar replies that anchor the bot's style. */
module Config {
  const BannedWords: seq<string> := ["hitler", "kill"]

  const T1: string := "They are a good player in video games, and a wonderful person!"
  const T2: string := "Gamers should not think over playing video games, It's all the matter of perfection!"
  const T3: string := "The village called. They'd like their idiot back. You better get going."
}
