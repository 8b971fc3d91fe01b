/** The choice of the initial pattern in `choose_start` of game_of_life.c. */
module Startup {

  /** Where the initial field is read from. */
  datatype Source = Stdin | File(name: string)

  /** `choose_start`: the file name starts as "file_1.txt" and keys '2' to
      '5' overwrite its sixth character; key '@' reads standard input
      instead of any file. */
  function ChooseStart(key: int): (s: Source)
    ensures s == Stdin <==> key == 64
    ensures 50 <= key <= 53 ==> s == File("file_" + [key as char] + ".txt")
    ensures key != 64 && !(50 <= key <= 53) ==> s == File("file_1.txt")
  {
    var name := "file_1.txt";
    var chosen :=
      if key == 50 then name[5 := '2']
      else if key == 51 then name[5 := '3']
      else if key == 52 then name[5 := '4']
      else if key == 53 then name[5 := '5']
      else name;
    assert 50 <= key <= 53 ==> chosen == "file_" + [key as char] + ".txt";
    if key == 64 then Stdin else File(chosen)
  }
}
