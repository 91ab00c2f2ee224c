/** The player entity, its enumerations and the error taxonomy of the service.

    A Java `Player` is a bean whose every field is a nullable box, so each
    field here is an `Option`: `None` stands for Java's `null`. */
module Entity {

  datatype Option<+T> = None | Some(value: T) {
    function GetOr(default: T): T {
      match this
      case Some(v) => v
      case None => default
    }
  }

  /** The errors an operation of the service can end with. */
  datatype Error =
    | NotFound     // NoSuchPlayerException, answered with 404
    | InvalidData  // NoValidPlayerException, answered with 400
    | NullPointer  // a null field unboxed or dereferenced: an unhandled server error
    | OutOfRange   // List.subList refused its bounds (IndexOutOfBoundsException, or
                   // IllegalArgumentException when from > to): an unhandled server error

  datatype Result<+T> = Ok(value: T) | Err(error: Error)

  datatype Race = Human | Dwarf | Elf | Giant | Orc | Troll | Hobbit

  datatype Profession = Warrior | Rogue | Sorcerer | Cleric | Paladin | Nazgul | Warlock | Druid

  /** The sort keys a client may ask for. */
  datatype PlayerOrder = Id | Name | Experience | Birthday | Level

  /** A player record. `birthday` is the instant in epoch milliseconds;
      `level` and `untilNextLevel` are derived from `experience`. */
  datatype Player = Player(
    id: Option<int>,
    name: Option<string>,
    title: Option<string>,
    race: Option<Race>,
    profession: Option<Profession>,
    birthday: Option<int>,
    experience: Option<int>,
    level: Option<int>,
    untilNextLevel: Option<int>,
    banned: Option<bool>)

  /** The fields of a player, one per property of the bean. */
  datatype Field =
    | IdField | NameField | TitleField | RaceField | ProfessionField
    | BirthdayField | ExperienceField | LevelField | UntilNextLevelField | BannedField

  /** Field `f` of `p` is not null. */
  predicate IsSet(p: Player, f: Field) {
    match f
    case IdField => p.id.Some?
    case NameField => p.name.Some?
    case TitleField => p.title.Some?
    case RaceField => p.race.Some?
    case ProfessionField => p.profession.Some?
    case BirthdayField => p.birthday.Some?
    case ExperienceField => p.experience.Some?
    case LevelField => p.level.Some?
    case UntilNextLevelField => p.untilNextLevel.Some?
    case BannedField => p.banned.Some?
  }

  /** A request body with every field null. */
  const EmptyPlayer := Player(None, None, None, None, None, None, None, None, None, None)
}
