/** The record shapes of the tracker (types.ts) and its default habit list
    (constants.tsx). */
module Types {

  /** The closed set of habit categories, in declaration order. */
  datatype Category = Spiritual | Health | Finance | Social | Work | Other
  {
    /** The position of the category in the declaration. */
    function Index(): (i: nat)
      ensures i < 6
    {
      match this
      case Spiritual => 0
      case Health => 1
      case Finance => 2
      case Social => 3
      case Work => 4
      case Other => 5
    }
  }

  /** `Object.values(Category)`: every category once, in declaration order.
      The dashboard iterates it and the habit form offers it as choices. */
  function AllCategories(): (r: seq<Category>)
    ensures |r| == 6
    ensures forall c: Category :: r[c.Index()] == c
    ensures forall i :: 0 <= i < 6 ==> r[i].Index() == i
    ensures forall i, j :: 0 <= i < j < |r| ==> r[i] != r[j]
  {
    [Spiritual, Health, Finance, Social, Work, Other]
  }

  /** A tracked habit; `createdAt` is a millisecond timestamp. */
  datatype Habit = Habit(id: string, name: string, category: Category, createdAt: int)

  /** The record stored for one (habit, day) cell. `date` is a `YYYY-MM-DD`
      string and `timestamp` the instant of the last change. */
  datatype HabitLog = HabitLog(id: string, habitId: string, date: string, completed: bool, timestamp: int)

  /** No two habits of the list share an id. */
  predicate DistinctIds(habits: seq<Habit>)
  {
    forall i, j :: 0 <= i < j < |habits| ==> habits[i].id != habits[j].id
  }

  /** `INITIAL_HABITS`: eighteen habits with ids "1" to "18". The source
      calls `Date.now()` once per habit while the module loads; the model
      takes those eighteen readings as one load instant. */
  function InitialHabits(loadTime: int): (r: seq<Habit>)
    ensures |r| == 18
    ensures forall i :: 0 <= i < |r| ==> r[i].createdAt == loadTime
  {
    [ Habit("1", "Wake up", Health, loadTime),
      Habit("2", "Journalling", Spiritual, loadTime),
      Habit("3", "Squats", Health, loadTime),
      Habit("4", "Call", Social, loadTime),
      Habit("5", "Insta content", Work, loadTime),
      Habit("6", "Bath", Health, loadTime),
      Habit("7", "Study \U{1F4DA}", Work, loadTime),
      Habit("8", "Drink water", Health, loadTime),
      Habit("9", "Self talk", Spiritual, loadTime),
      Habit("10", "3 time meal", Health, loadTime),
      Habit("11", "Clothes \U{1F9FA}", Other, loadTime),
      Habit("12", "Play games", Social, loadTime),
      Habit("13", "Sleep well \U{1F634}", Health, loadTime),
      Habit("14", "Rest", Health, loadTime),
      Habit("15", "Exercise \U{1F3C3}", Health, loadTime),
      Habit("16", "Room clean \U{1F9F9}", Other, loadTime),
      Habit("17", "Nam Jap \U{1F64F}", Spiritual, loadTime),
      Habit("18", "Water Bottle", Health, loadTime) ]
  }

  /** The default list has no repeated id: the first nine ids are single
      digits that differ, the other nine are a `1` followed by digits that
      differ. */
  lemma InitialIdsDistinct(loadTime: int)
    ensures DistinctIds(InitialHabits(loadTime))
  {
    var r := InitialHabits(loadTime);
    forall i, j | 0 <= i < j < |r| ensures r[i].id != r[j].id {
      assert |r[i].id| == (if i < 9 then 1 else 2);
      assert |r[j].id| == (if j < 9 then 1 else 2);
      assert r[i].id[|r[i].id| - 1] != r[j].id[|r[j].id| - 1] || |r[i].id| != |r[j].id|;
    }
  }

}
